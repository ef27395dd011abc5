/**
 * The 81-cell board of SBoard.cpp: storage, cell access, line and block
 * extraction, the constraint checks, the Free/solved position lists and the
 * character mapping used by all textual input and output.
 */
module Board {
  import opened Cells

  /** Every slot stores the position it represents; SetCell restores this on every write. */
  predicate WellPlaced(cells: seq<Cell>) {
    |cells| == CellCount && forall i :: 0 <= i < |cells| ==> cells[i].position == PosOf(i)
  }

  /** The board's cell array, row-major: slot `9 * row + col` holds the cell at (col, row). */
  type Board = cells: seq<Cell> | WellPlaced(cells) witness EmptyBoard()

  /** The board as construction or ClearBoard leaves it. */
  function EmptyBoard(): seq<Cell> {
    seq(CellCount, (i: nat) => DefaultCell().(position := PosOf(i)))
  }

  /** The indexed write shared by SetCell and ClearBoard: the stored position is normalised. */
  function Put(cells: seq<Cell>, col: nat, row: nat, c: Cell): (r: seq<Cell>)
    requires |cells| == CellCount && col < BoardSize && row < BoardSize
    ensures |r| == CellCount
    ensures r[Pos(col, row).Index()] == c.(position := Pos(col, row))
    ensures forall i :: 0 <= i < CellCount && i != Pos(col, row).Index() ==> r[i] == cells[i]
  {
    cells[Pos(col, row).Index() := c.(position := Pos(col, row))]
  }

  /** Constructor and ClearBoard: start from 81 default cells and write each one back through SetCell. */
  method ClearBoard() returns (b: Board)
    ensures forall i :: 0 <= i < CellCount ==> b[i].value == Empty && b[i].state == Free
    ensures forall i :: 0 <= i < CellCount ==> b[i].position == Pos(i % BoardSize, i / BoardSize)
    ensures b == EmptyBoard()
  {
    var cells := seq(CellCount, _ => DefaultCell());
    for j := 0 to BoardSize
      invariant |cells| == CellCount
      invariant forall s :: 0 <= s < CellCount ==> cells[s].value == Empty && cells[s].state == Free
      invariant forall s :: 0 <= s < BoardSize * j ==> cells[s].position == PosOf(s)
    {
      for i := 0 to BoardSize
        invariant |cells| == CellCount
        invariant forall s :: 0 <= s < CellCount ==> cells[s].value == Empty && cells[s].state == Free
        invariant forall s :: 0 <= s < BoardSize * j + i ==> cells[s].position == PosOf(s)
      {
        cells := Put(cells, i, j, DefaultCell());
      }
    }
    b := cells;
  }

  /** Reads a cell; out-of-range coordinates yield the default cell. */
  function GetCell(b: Board, col: nat, row: nat): (c: Cell)
    ensures col < BoardSize && row < BoardSize ==> c == b[Pos(col, row).Index()] && c.position == Pos(col, row)
    ensures !(col < BoardSize && row < BoardSize) ==> c == DefaultCell()
  {
    if col >= BoardSize || row >= BoardSize then DefaultCell() else b[Pos(col, row).Index()]
  }

  /** Writes a cell at (col, row), normalising its position; out-of-range writes are ignored. */
  function SetCell(b: Board, col: nat, row: nat, c: Cell): (r: Board)
    ensures col < BoardSize && row < BoardSize ==> GetCell(r, col, row) == c.(position := Pos(col, row))
    ensures forall col', row' :: (col' != col || row' != row) ==> GetCell(r, col', row') == GetCell(b, col', row')
    ensures forall i :: 0 <= i < CellCount && PosOf(i) != Pos(col, row) ==> r[i] == b[i]
    ensures !(col < BoardSize && row < BoardSize) ==> r == b
  {
    if col >= BoardSize || row >= BoardSize then b else Put(b, col, row, c)
  }

  /** Reading slot `q` after a write at `p`: the written cell there, the old cell elsewhere. */
  lemma SetCellAt(b: Board, p: Pos, q: Pos, c: Cell)
    requires p.InRange() && q.InRange()
    ensures SetCell(b, p.col, p.row, c)[q.Index()] == if q == p then c.(position := p) else b[q.Index()]
  {
    var r := SetCell(b, p.col, p.row, c);
    assert GetCell(r, q.col, q.row) == r[q.Index()];
  }

  /** The nine cells of row `r`, by increasing column. */
  function GetRow(b: Board, r: nat): (line: seq<Cell>)
    ensures |line| == BoardSize
    ensures r < BoardSize ==> forall k :: 0 <= k < BoardSize ==> line[k] == b[BoardSize * r + k] && line[k].position == Pos(k, r)
    ensures r >= BoardSize ==> forall k :: 0 <= k < BoardSize ==> line[k] == DefaultCell()
  {
    seq(BoardSize, c requires 0 <= c < BoardSize => GetCell(b, c, r))
  }

  /** The nine cells of column `c`, by increasing row. */
  function GetCol(b: Board, c: nat): (line: seq<Cell>)
    ensures |line| == BoardSize
    ensures c < BoardSize ==> forall k :: 0 <= k < BoardSize ==> line[k] == b[BoardSize * k + c] && line[k].position == Pos(c, k)
    ensures c >= BoardSize ==> forall k :: 0 <= k < BoardSize ==> line[k] == DefaultCell()
  {
    seq(BoardSize, r requires 0 <= r < BoardSize => GetCell(b, c, r))
  }

  /** Block number of a position: blocks are numbered 0..8 row-major over the 3x3 grid of blocks. */
  function BlockOf(p: Pos): nat {
    (p.row / BlockSize) * BlockSize + p.col / BlockSize
  }

  /** Positions on the board lie in blocks 0..8. */
  lemma BlockOfInRange(p: Pos)
    requires p.InRange()
    ensures BlockOf(p) < BoardSize
  {
  }

  /** Top-left column of block `index`. */
  function BlockCol(index: nat): nat {
    (index % BlockSize) * BlockSize
  }

  /** Top-left row of block `index`. */
  function BlockRow(index: nat): nat {
    (index / BlockSize) * BlockSize
  }

  /** The k-th cell of block `index` in the column-by-column walk of GetBlock. */
  function BlockCellByColumn(index: nat, k: nat): Pos {
    Pos(BlockCol(index) + k / BlockSize, BlockRow(index) + k % BlockSize)
  }

  /** The k-th cell of block `index` in the row-by-row scan of IsValueValidAt. */
  function BlockCellByRow(index: nat, k: nat): Pos {
    Pos(BlockCol(index) + k % BlockSize, BlockRow(index) + k / BlockSize)
  }

  /** Both walks of block `index` stay on the board and inside the block. */
  lemma BlockGeometry(index: nat, k: nat)
    requires index < BoardSize && k < BoardSize
    ensures BlockCellByRow(index, k).InRange() && BlockOf(BlockCellByRow(index, k)) == index
    ensures BlockCellByColumn(index, k).InRange() && BlockOf(BlockCellByColumn(index, k)) == index
  {
    var q, r := index / BlockSize, index % BlockSize;
    var kq, kr := k / BlockSize, k % BlockSize;
    assert index == BlockSize * q + r && q < BlockSize && r < BlockSize;
    assert k == BlockSize * kq + kr && kq < BlockSize && kr < BlockSize;
    InBlockCorner(q, r, kr, kq);
    InBlockCorner(q, r, kq, kr);
  }

  /** The cell (dc, dr) from the corner of block (q, r) of the 3x3 grid of blocks. */
  lemma InBlockCorner(q: nat, r: nat, dc: nat, dr: nat)
    requires q < BlockSize && r < BlockSize && dc < BlockSize && dr < BlockSize
    ensures var p := Pos(BlockSize * r + dc, BlockSize * q + dr);
      p.InRange() && BlockOf(p) == BlockSize * q + r
      && BlockCol(BlockSize * q + r) == BlockSize * r && BlockRow(BlockSize * q + r) == BlockSize * q
  {
    assert (BlockSize * r + dc) / BlockSize == r;
    assert (BlockSize * q + dr) / BlockSize == q;
    assert (BlockSize * q + r) / BlockSize == q && (BlockSize * q + r) % BlockSize == r;
  }

  /** BlockGeometry for every cell of the block; blocks past 8 start below the board. */
  lemma BlockGeometryAll(index: nat)
    ensures index < BoardSize ==> forall k :: 0 <= k < BoardSize ==>
      BlockCellByColumn(index, k).InRange() && BlockOf(BlockCellByColumn(index, k)) == index
    ensures index < BoardSize ==> forall k :: 0 <= k < BoardSize ==>
      BlockCellByRow(index, k).InRange() && BlockOf(BlockCellByRow(index, k)) == index
    ensures index >= BoardSize ==> BlockRow(index) >= BoardSize
  {
    if index < BoardSize {
      forall k | 0 <= k < BoardSize
        ensures BlockCellByColumn(index, k).InRange() && BlockOf(BlockCellByColumn(index, k)) == index
        ensures BlockCellByRow(index, k).InRange() && BlockOf(BlockCellByRow(index, k)) == index
      {
        BlockGeometry(index, k);
      }
    }
  }

  /** A position of block `index` lies within the block's three columns and three rows. */
  lemma InBlockGeometry(index: nat, p: Pos)
    requires p.InRange() && BlockOf(p) == index
    ensures BlockCol(index) <= p.col < BlockCol(index) + BlockSize
    ensures BlockRow(index) <= p.row < BlockRow(index) + BlockSize
  {
    var cq, cr := p.col / BlockSize, p.col % BlockSize;
    var rq, rr := p.row / BlockSize, p.row % BlockSize;
    assert p.col == BlockSize * cq + cr && cq < BlockSize;
    assert p.row == BlockSize * rq + rr && rq < BlockSize;
    assert index == BlockSize * rq + cq;
    assert index % BlockSize == cq && index / BlockSize == rq;
  }

  /**
   * The nine cells of block `index`, walked column by column: the outer loop runs over
   * the block's columns and the inner one over its rows.
   */
  function GetBlock(b: Board, index: nat): (line: seq<Cell>)
    ensures |line| == BoardSize
    ensures index < BoardSize ==> forall k :: 0 <= k < BoardSize ==>
      line[k].position == BlockCellByColumn(index, k)
      && line[k] == b[line[k].position.Index()]
      && BlockOf(line[k].position) == index
    ensures index >= BoardSize ==> forall k :: 0 <= k < BoardSize ==> line[k] == DefaultCell()
  {
    BlockGeometryAll(index);
    seq(BoardSize, k requires 0 <= k < BoardSize =>
      GetCell(b, BlockCellByColumn(index, k).col, BlockCellByColumn(index, k).row))
  }

  /** Every position of block `index` appears in GetBlock(index). */
  lemma BlockCoversItsPositions(b: Board, index: nat, p: Pos)
    requires index < BoardSize && p.InRange() && BlockOf(p) == index
    ensures exists k :: 0 <= k < BoardSize && GetBlock(b, index)[k].position == p
  {
    InBlockGeometry(index, p);
    var dc, dr := p.col - BlockCol(index), p.row - BlockRow(index);
    var k := BlockSize * dc + dr;
    assert k / BlockSize == dc && k % BlockSize == dr;
    assert BlockCellByColumn(index, k) == p;
    assert GetBlock(b, index)[k].position == p;
  }

  /** GetBlockIndexFrom: the block number computed from the cell's slot index. */
  function GetBlockIndexFrom(col: nat, row: nat): (index: nat)
    requires BoardSize * row + col < CellCount
    ensures col < BoardSize ==> index == BlockOf(Pos(col, row)) && index < BoardSize
  {
    var cellIndex := BoardSize * row + col;
    var blockCol := (cellIndex / BlockSize) % BlockSize;
    var blockRow := (cellIndex / BoardSize) / BlockSize;
    BlockIndexArithmetic(col, row);
    blockRow * BlockSize + blockCol
  }

  /** The slot arithmetic of GetBlockIndexFrom recovers the column's and the row's block. */
  lemma BlockIndexArithmetic(col: nat, row: nat)
    requires BoardSize * row + col < CellCount
    ensures col < BoardSize ==> ((BoardSize * row + col) / BlockSize) % BlockSize == col / BlockSize
    ensures col < BoardSize ==> ((BoardSize * row + col) / BoardSize) / BlockSize == row / BlockSize
    ensures col < BoardSize ==> row < BoardSize
  {
    if col < BoardSize {
      var cellIndex := BoardSize * row + col;
      assert cellIndex / BlockSize == BlockSize * row + col / BlockSize;
      assert cellIndex / BoardSize == row;
    }
  }

  // ---------------------------------------------------------------------------
  // Line checks
  // ---------------------------------------------------------------------------

  /** The values of a line of cells, in order. */
  function Values(cells: seq<Cell>): (vs: seq<Value>)
    ensures |vs| == |cells| && forall i :: 0 <= i < |cells| ==> vs[i] == cells[i].value
  {
    seq(|cells|, i requires 0 <= i < |cells| => cells[i].value)
  }

  /**
   * The range std::unique leaves behind: each run of equal adjacent values collapsed
   * to one value. std::unique returns the end of the range exactly when nothing collapsed.
   */
  function Unique(vs: seq<Value>): seq<Value>
  {
    if |vs| <= 1 then vs
    else if vs[0] == vs[1] then Unique(vs[1..])
    else [vs[0]] + Unique(vs[1..])
  }

  /** No two neighbouring values are equal. */
  predicate NoAdjacentRepeat(vs: seq<Value>) {
    forall k :: 0 <= k < |vs| - 1 ==> vs[k] != vs[k + 1]
  }

  /** std::unique leaves the length unchanged exactly when no two neighbours are equal. */
  lemma {:induction false} UniqueKeepsLengthIff(vs: seq<Value>)
    ensures |Unique(vs)| <= |vs|
    ensures |Unique(vs)| == |vs| <==> NoAdjacentRepeat(vs)
  {
    if |vs| > 1 {
      UniqueKeepsLengthIff(vs[1..]);
      assert NoAdjacentRepeat(vs) <==> vs[0] != vs[1] && NoAdjacentRepeat(vs[1..]) by {
        if NoAdjacentRepeat(vs) {
          forall k | 0 <= k < |vs[1..]| - 1 ensures vs[1..][k] != vs[1..][k + 1] {
            assert vs[1..][k] == vs[k + 1] && vs[1..][k + 1] == vs[k + 2];
          }
        }
        if vs[0] != vs[1] && NoAdjacentRepeat(vs[1..]) {
          forall k | 0 <= k < |vs| - 1 ensures vs[k] != vs[k + 1] {
            if k > 0 {
              assert vs[k] == vs[1..][k - 1] && vs[k + 1] == vs[1..][k];
            }
          }
        }
      }
    }
  }

  /**
   * SBoard::IsSolved on a line: nine cells, none empty, and std::unique removed nothing.
   * Because std::unique only collapses neighbours, only adjacent repeats are rejected.
   */
  predicate IsSolved(cells: seq<Cell>) {
    && |cells| == BoardSize
    && (forall c :: c in cells ==> c.value != Empty)
    && |Unique(Values(cells))| == |cells|
  }

  /** No two non-empty cells of the line share a value; empty cells never conflict. */
  predicate DistinctFilled(cells: seq<Cell>) {
    forall i, j :: 0 <= i < j < |cells| && cells[i].value != Empty ==> cells[i].value != cells[j].value
  }

  /** What the line check accepts: nine filled cells with no equal neighbours. */
  lemma IsSolvedMeaning(cells: seq<Cell>)
    ensures IsSolved(cells) <==>
      |cells| == BoardSize
      && (forall i :: 0 <= i < |cells| ==> cells[i].value != Empty)
      && (forall k :: 0 <= k < |cells| - 1 ==> cells[k].value != cells[k + 1].value)
  {
    UniqueKeepsLengthIff(Values(cells));
    var vs := Values(cells);
    assert NoAdjacentRepeat(vs) <==> forall k :: 0 <= k < |cells| - 1 ==> cells[k].value != cells[k + 1].value;
    assert (forall c :: c in cells ==> c.value != Empty) <==> (forall i :: 0 <= i < |cells| ==> cells[i].value != Empty);
  }

  /** A line holding each of 1..9 once passes the line check. */
  lemma PermutationIsSolved(cells: seq<Cell>)
    requires |cells| == BoardSize && (forall i :: 0 <= i < |cells| ==> cells[i].value != Empty)
    requires DistinctFilled(cells)
    ensures IsSolved(cells)
  {
    IsSolvedMeaning(cells);
  }

  /** The line check lets repeated values through when they are not neighbours. */
  lemma IsSolvedMissesDistantRepeats()
    ensures var line := seq(BoardSize, k => CellOf(if k % 2 == 0 then 1 else 2, Fixed));
      IsSolved(line) && !DistinctFilled(line)
  {
    var line := seq(BoardSize, k => CellOf(if k % 2 == 0 then 1 else 2, Fixed));
    IsSolvedMeaning(line);
    assert line[0].value == line[2].value;
  }

  /**
   * SBoard::IsValid: walks the line keeping the set of values seen so far and fails at the
   * first non-empty value already in the set.
   */
  method IsValid(cells: seq<Cell>) returns (valid: bool)
    ensures valid <==> DistinctFilled(cells)
  {
    var seen: set<Value> := {};
    for k := 0 to |cells|
      invariant seen == set i | 0 <= i < k && cells[i].value != Empty :: cells[i].value
      invariant DistinctFilled(cells[..k])
    {
      var v := cells[k].value;
      if v != Empty {
        if v in seen {
          var i :| 0 <= i < k && cells[i].value != Empty && cells[i].value == v;
          assert !DistinctFilled(cells) by {
            assert cells[i].value == cells[k].value;
          }
          return false;
        }
        seen := seen + {v};
      }
      assert cells[..k + 1] == cells[..k] + [cells[k]];
    }
    assert cells[..|cells|] == cells;
    return true;
  }

  /** A conflicting pair stays a conflict whatever cells are added around the line. */
  lemma InvalidStaysInvalid(cells: seq<Cell>, before: seq<Cell>, after: seq<Cell>)
    requires !DistinctFilled(cells)
    ensures !DistinctFilled(before + cells + after)
  {
    var i, j :| 0 <= i < j < |cells| && cells[i].value != Empty && cells[i].value == cells[j].value;
    var line := before + cells + after;
    assert line[|before| + i] == cells[i] && line[|before| + j] == cells[j];
  }

  // ---------------------------------------------------------------------------
  // Placement check
  // ---------------------------------------------------------------------------

  /** Slots of row `row`, left to right. */
  function RowSlots(row: nat): seq<nat> {
    seq(BoardSize, k => BoardSize * row + k)
  }

  /** Slots of column `col`, top to bottom. */
  function ColSlots(col: nat): seq<nat> {
    seq(BoardSize, k => col + BoardSize * k)
  }

  /** Slots of block `index`, row by row within the block (the order IsValueValidAt scans them). */
  function BlockSlots(index: nat): seq<nat> {
    seq(BoardSize, (k: nat) => BlockCellByRow(index, k).Index())
  }

  /** Some scanned slot holds the non-empty value `v`. */
  predicate Occupied(b: Board, slots: seq<nat>, v: Value)
    requires forall k :: 0 <= k < |slots| ==> slots[k] < CellCount
  {
    exists k :: 0 <= k < |slots| && b[slots[k]].value != Empty && b[slots[k]].value == v
  }

  /** The slots IsValueValidAt scans are all on the board. */
  lemma ScannedSlotsInRange(col: nat, row: nat, bidx: nat)
    requires col < BoardSize && row < BoardSize && bidx < BoardSize
    ensures forall k :: 0 <= k < BoardSize ==> RowSlots(row)[k] < CellCount && ColSlots(col)[k] < CellCount
    ensures forall k :: 0 <= k < BoardSize ==> BlockSlots(bidx)[k] < CellCount
  {
    forall k | 0 <= k < BoardSize ensures BlockSlots(bidx)[k] < CellCount {
      BlockGeometry(bidx, k);
    }
  }

  /**
   * SBoard::IsValueValidAt: scans the row, the column and the block of (col, row) and
   * rejects `v` if any non-empty cell holds it, the cell at (col, row) included. The source
   * indexes the cell array without a range check, so (col, row) must be on the board.
   */
  predicate IsValueValidAt(b: Board, col: nat, row: nat, v: Value)
    requires col < BoardSize && row < BoardSize
  {
    var bidx := GetBlockIndexFrom(col, row);
    ScannedSlotsInRange(col, row, bidx);
    && !Occupied(b, RowSlots(row), v)
    && !Occupied(b, ColSlots(col), v)
    && !Occupied(b, BlockSlots(bidx), v)
  }

  /** Two positions share a row, a column or a block. */
  predicate SharesUnit(p: Pos, q: Pos) {
    p.row == q.row || p.col == q.col || BlockOf(p) == BlockOf(q)
  }

  /** No non-empty cell sharing a unit with `p` holds `v`. */
  predicate ConflictFree(b: Board, p: Pos, v: Value) {
    forall i :: 0 <= i < CellCount && SharesUnit(PosOf(i), p) && b[i].value != Empty ==> b[i].value != v
  }

  /** Slot arithmetic of a block: where the k-th scanned slot lies. */
  lemma BlockSlotAt(bidx: nat, k: nat)
    requires bidx < BoardSize && k < BoardSize
    ensures BlockSlots(bidx)[k] < CellCount
    ensures PosOf(BlockSlots(bidx)[k]) == BlockCellByRow(bidx, k)
    ensures BlockOf(PosOf(BlockSlots(bidx)[k])) == bidx
  {
    BlockGeometry(bidx, k);
    IndexBijection(BlockCellByRow(bidx, k), 0);
  }

  /** Every slot of block `bidx` is scanned. */
  lemma BlockSlotOf(bidx: nat, i: nat) returns (k: nat)
    requires i < CellCount && BlockOf(PosOf(i)) == bidx
    ensures k < BoardSize && BlockSlots(bidx)[k] == i
  {
    var p := PosOf(i);
    IndexBijection(p, i);
    InBlockGeometry(bidx, p);
    var dc, dr := p.col - BlockCol(bidx), p.row - BlockRow(bidx);
    k := BlockSize * dr + dc;
    assert k / BlockSize == dr && k % BlockSize == dc;
    assert BlockCellByRow(bidx, k) == p;
  }

  /**
   * The positions of block `index`, row by row within the block: the cells the elimination
   * pass visits through the slots BlockSlots(index).
   */
  function BlockPositions(index: nat): (ps: seq<Pos>)
    requires index < BoardSize
    ensures |ps| == BoardSize
    ensures forall k :: 0 <= k < BoardSize ==>
      ps[k].InRange() && BlockOf(ps[k]) == index && ps[k].Index() == BlockSlots(index)[k]
    ensures forall p: Pos :: p.InRange() && BlockOf(p) == index ==> p in ps
    ensures forall m, n :: 0 <= m < n < BoardSize ==> ps[m] != ps[n]
  {
    var ps := seq(BoardSize, k requires 0 <= k < BoardSize => BlockCellByRow(index, k));
    BlockPositionsFacts(index, ps);
    ps
  }

  lemma BlockPositionsFacts(index: nat, ps: seq<Pos>)
    requires index < BoardSize
    requires ps == seq(BoardSize, k requires 0 <= k < BoardSize => BlockCellByRow(index, k))
    ensures forall k :: 0 <= k < BoardSize ==>
      ps[k].InRange() && BlockOf(ps[k]) == index && ps[k].Index() == BlockSlots(index)[k]
    ensures forall p: Pos :: p.InRange() && BlockOf(p) == index ==> p in ps
    ensures forall m, n :: 0 <= m < n < BoardSize ==> ps[m] != ps[n]
  {
    forall k | 0 <= k < BoardSize
      ensures ps[k].InRange() && BlockOf(ps[k]) == index && ps[k].Index() == BlockSlots(index)[k]
    {
      BlockSlotAt(index, k);
    }
    forall p: Pos | p.InRange() && BlockOf(p) == index ensures p in ps {
      IndexBijection(p, 0);
      var k := BlockSlotOf(index, p.Index());
      BlockSlotAt(index, k);
      IndexBijection(ps[k], p.Index());
    }
    forall m, n | 0 <= m < n < BoardSize ensures ps[m] != ps[n] {
      BlockSlotAt(index, m);
      BlockSlotAt(index, n);
    }
  }

  /** A conflicting cell in a shared unit makes the scan reject `v`. */
  lemma ScanFindsConflict(b: Board, col: nat, row: nat, v: Value, i: nat)
    requires col < BoardSize && row < BoardSize && i < CellCount
    requires SharesUnit(PosOf(i), Pos(col, row)) && b[i].value != Empty && b[i].value == v
    ensures !IsValueValidAt(b, col, row, v)
  {
    var q := PosOf(i);
    var bidx := GetBlockIndexFrom(col, row);
    if q.row == row {
      assert RowSlots(row)[q.col] == i;
    } else if q.col == col {
      assert ColSlots(col)[q.row] == i;
    } else {
      var k := BlockSlotOf(bidx, i);
      assert BlockSlots(bidx)[k] == i;
    }
  }

  /** Slot arithmetic of lines: where the k-th slot of a row or a column lies. */
  lemma LineSlotAt(line: nat, k: nat)
    requires line < BoardSize && k < BoardSize
    ensures RowSlots(line)[k] < CellCount && PosOf(RowSlots(line)[k]) == Pos(k, line)
    ensures ColSlots(line)[k] < CellCount && PosOf(ColSlots(line)[k]) == Pos(line, k)
  {
    IndexBijection(Pos(k, line), 0);
    IndexBijection(Pos(line, k), 0);
  }

  /** The slot at which an occupied scan found `v`. */
  lemma OccupiedWitness(b: Board, slots: seq<nat>, v: Value) returns (k: nat)
    requires forall j :: 0 <= j < |slots| ==> slots[j] < CellCount
    requires Occupied(b, slots, v)
    ensures k < |slots| && b[slots[k]].value != Empty && b[slots[k]].value == v
  {
    k :| 0 <= k < |slots| && b[slots[k]].value != Empty && b[slots[k]].value == v;
  }

  /** A rejection by the scan points at a conflicting cell in a shared unit. */
  lemma ScanRejectsOnlyConflicts(b: Board, col: nat, row: nat, v: Value) returns (i: nat)
    requires col < BoardSize && row < BoardSize
    requires !IsValueValidAt(b, col, row, v)
    ensures i < CellCount && SharesUnit(PosOf(i), Pos(col, row)) && b[i].value != Empty && b[i].value == v
  {
    var bidx := GetBlockIndexFrom(col, row);
    ScannedSlotsInRange(col, row, bidx);
    if Occupied(b, RowSlots(row), v) {
      var k := OccupiedWitness(b, RowSlots(row), v);
      LineSlotAt(row, k);
      i := RowSlots(row)[k];
    } else if Occupied(b, ColSlots(col), v) {
      var k := OccupiedWitness(b, ColSlots(col), v);
      LineSlotAt(col, k);
      i := ColSlots(col)[k];
    } else {
      var k := OccupiedWitness(b, BlockSlots(bidx), v);
      BlockSlotAt(bidx, k);
      i := BlockSlots(bidx)[k];
    }
  }

  /** The scan of IsValueValidAt accepts `v` exactly when no cell of the row, column or block holds it. */
  lemma IsValueValidAtMeaning(b: Board, col: nat, row: nat, v: Value)
    requires col < BoardSize && row < BoardSize
    ensures IsValueValidAt(b, col, row, v) <==> ConflictFree(b, Pos(col, row), v)
  {
    if !IsValueValidAt(b, col, row, v) {
      var i := ScanRejectsOnlyConflicts(b, col, row, v);
    }
    forall i | 0 <= i < CellCount && SharesUnit(PosOf(i), Pos(col, row)) && b[i].value != Empty && b[i].value == v
      ensures !IsValueValidAt(b, col, row, v)
    {
      ScanFindsConflict(b, col, row, v, i);
    }
  }

  /** The empty value is never rejected, and on an empty board every value is accepted everywhere. */
  lemma EmptyBoardAcceptsEverything(col: nat, row: nat, v: Value)
    requires col < BoardSize && row < BoardSize
    ensures IsValueValidAt(EmptyBoard(), col, row, v)
    ensures forall b: Board :: IsValueValidAt(b, col, row, Empty)
  {
  }

  // ---------------------------------------------------------------------------
  // Whole-board check
  // ---------------------------------------------------------------------------

  /**
   * SBoard::IsBoardSolved. Its row loop and its block loop both extract lines with GetCol,
   * so all three passes examine the nine columns.
   */
  predicate IsBoardSolved(b: Board) {
    var colsSolved := forall col :: 0 <= col < BoardSize ==> IsSolved(GetCol(b, col));
    var rowsSolved := forall row :: 0 <= row < BoardSize ==> IsSolved(GetCol(b, row));
    var blocksSolved := forall n :: 0 <= n < BoardSize ==> IsSolved(GetCol(b, n));
    rowsSolved && colsSolved && blocksSolved
  }

  /** What the whole-board check accepts: every column passes the line check, nothing more. */
  lemma IsBoardSolvedChecksColumnsOnly(b: Board)
    ensures IsBoardSolved(b) <==> forall col :: 0 <= col < BoardSize ==> IsSolved(GetCol(b, col))
  {
  }

  /** A board that passes the whole-board check has no empty cell. */
  lemma SolvedBoardIsFilled(b: Board)
    requires IsBoardSolved(b)
    ensures forall i :: 0 <= i < CellCount ==> b[i].value != Empty
  {
    forall i | 0 <= i < CellCount ensures b[i].value != Empty {
      var line := GetCol(b, i % BoardSize);
      assert line[i / BoardSize] == b[i];
      assert line[i / BoardSize] in line;
    }
  }

  /** The board whose row `r` holds the value r + 1 in every cell. */
  function StripedBoard(): Board {
    seq(CellCount, i requires 0 <= i < CellCount => Cell(PosOf(i), i / BoardSize + 1, Fixed))
  }

  /** The whole-board check accepts a board whose rows repeat one value nine times. */
  lemma IsBoardSolvedMissesRows()
    ensures IsBoardSolved(StripedBoard())
    ensures !DistinctFilled(GetRow(StripedBoard(), 0)) && !IsSolved(GetRow(StripedBoard(), 0))
  {
    var b := StripedBoard();
    forall col | 0 <= col < BoardSize ensures IsSolved(GetCol(b, col)) {
      IsSolvedMeaning(GetCol(b, col));
    }
    IsSolvedMeaning(GetRow(b, 0));
    assert GetRow(b, 0)[0].value == GetRow(b, 0)[1].value;
  }

  // ---------------------------------------------------------------------------
  // Free and solved positions
  // ---------------------------------------------------------------------------

  /** Stored positions of the cells in slots i..80 whose IsSolved() equals `solved`, in slot order. */
  function PositionsFrom(b: Board, solved: bool, i: nat): (ps: seq<Pos>)
    requires i <= CellCount
    decreases CellCount - i
    ensures forall p :: p in ps <==> p.InRange() && i <= p.Index() && b[p.Index()].IsSolved() == solved
    ensures forall m, n :: 0 <= m < n < |ps| ==> ps[m].Index() < ps[n].Index()
    ensures |ps| <= CellCount - i
  {
    if i == CellCount then []
    else
      var rest := PositionsFrom(b, solved, i + 1);
      IndexBijection(b[i].position, i);
      if b[i].IsSolved() == solved then [b[i].position] + rest else rest
  }

  /** SBoard::GetFreeCells: positions of the Free cells in row-major order. */
  function GetFreeCells(b: Board): (ps: seq<Pos>)
    ensures forall p :: p in ps <==> p.InRange() && GetCell(b, p.col, p.row).state == Free
    ensures forall m, n :: 0 <= m < n < |ps| ==> ps[m].Index() < ps[n].Index()
  {
    PositionsFrom(b, false, 0)
  }

  /** SBoard::GetSolvedCells: positions of the Fixed, Solved and New cells in row-major order. */
  function GetSolvedCells(b: Board): (ps: seq<Pos>)
    ensures forall p :: p in ps <==> p.InRange() && GetCell(b, p.col, p.row).state != Free
    ensures forall m, n :: 0 <= m < n < |ps| ==> ps[m].Index() < ps[n].Index()
  {
    PositionsFrom(b, true, 0)
  }

  /** The two lists split the 81 positions between them. */
  lemma {:induction false} PositionsPartition(b: Board, i: nat)
    requires i <= CellCount
    decreases CellCount - i
    ensures |PositionsFrom(b, false, i)| + |PositionsFrom(b, true, i)| == CellCount - i
  {
    if i < CellCount {
      PositionsPartition(b, i + 1);
    }
  }

  /** GetFreeCells and GetSolvedCells partition the board's positions. */
  lemma FreeSolvedPartition(b: Board)
    ensures |GetFreeCells(b)| + |GetSolvedCells(b)| == CellCount
    ensures forall p: Pos :: p.InRange() ==> (p in GetFreeCells(b) <==> p !in GetSolvedCells(b))
  {
    PositionsPartition(b, 0);
  }

  /** Number of Free cells; every solver step that changes the board lowers it. */
  function FreeCount(b: Board): nat {
    |GetFreeCells(b)|
  }

  /** `b'` keeps every cell that is not Free in `b`. */
  predicate Extends(b: Board, b': Board) {
    forall i :: 0 <= i < CellCount && b[i].IsSolved() ==> b'[i] == b[i]
  }

  /** Filling cells never raises the Free count, and filling at least one lowers it. */
  lemma {:induction false} FreeCountFrom(b: Board, b': Board, i: nat)
    requires i <= CellCount
    requires forall j :: i <= j < CellCount && b[j].IsSolved() ==> b'[j].IsSolved()
    decreases CellCount - i
    ensures |PositionsFrom(b', false, i)| <= |PositionsFrom(b, false, i)|
    ensures (exists j :: i <= j < CellCount && !b[j].IsSolved() && b'[j].IsSolved())
      ==> |PositionsFrom(b', false, i)| < |PositionsFrom(b, false, i)|
  {
    if i < CellCount {
      FreeCountFrom(b, b', i + 1);
    }
  }

  /** A board that keeps every non-Free cell and fills at least one Free cell has fewer Free cells. */
  lemma FreeCountDrops(b: Board, b': Board, i: nat)
    requires forall j :: 0 <= j < CellCount && b[j].IsSolved() ==> b'[j].IsSolved()
    ensures FreeCount(b') <= FreeCount(b)
    ensures i < CellCount && !b[i].IsSolved() && b'[i].IsSolved() ==> FreeCount(b') < FreeCount(b)
  {
    FreeCountFrom(b, b', 0);
  }

  // ---------------------------------------------------------------------------
  // Character mapping
  // ---------------------------------------------------------------------------

  /** SBoard::CharacterToCell: a digit gives a Fixed cell with that value, anything else an empty Free cell. */
  function CharacterToCell(ch: char): (c: Cell)
    ensures '1' <= ch <= '9' ==> c.value == ch as int - '0' as int && c.state == Fixed
    ensures !('1' <= ch <= '9') ==> c.value == Empty && c.state == Free
    ensures c.position == Pos(0, 0)
  {
    var cell := CellOf(Empty, Fixed);
    match ch
    case '1' => cell.(value := 1)
    case '2' => cell.(value := 2)
    case '3' => cell.(value := 3)
    case '4' => cell.(value := 4)
    case '5' => cell.(value := 5)
    case '6' => cell.(value := 6)
    case '7' => cell.(value := 7)
    case '8' => cell.(value := 8)
    case '9' => cell.(value := 9)
    case _ => cell.(state := Free)
  }

  /** SBoard::CellToCharacter: '1'..'9' for a value, '.' for an empty cell. */
  function CellToCharacter(c: Cell): (ch: char)
    ensures c.value != Empty ==> '1' <= ch <= '9' && ch as int - '0' as int == c.value
    ensures c.value == Empty ==> ch == '.'
  {
    match c.value
    case 1 => '1'
    case 2 => '2'
    case 3 => '3'
    case 4 => '4'
    case 5 => '5'
    case 6 => '6'
    case 7 => '7'
    case 8 => '8'
    case 9 => '9'
    case 0 => '.'
    case _ => ' '
  }

  /** Digits survive the character mapping both ways; every other character comes back as '.'. */
  lemma CharacterRoundTrip(ch: char, c: Cell)
    ensures CellToCharacter(CharacterToCell(ch)) == if '1' <= ch <= '9' then ch else '.'
    ensures CharacterToCell(CellToCharacter(c)).value == c.value
    ensures CharacterToCell(CellToCharacter(c)).state == if c.value == Empty then Free else Fixed
  {
  }
}
