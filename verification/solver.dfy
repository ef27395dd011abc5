/**
 * The solving engine of SudokuSolver.cpp: one elimination pass, the elimination
 * loop, the copy-per-frame backtracking search, and ReverseSolve.
 */
module Solver {
  import opened Options
  import opened Cells
  import opened Board

  // ---------------------------------------------------------------------------
  // One elimination pass
  // ---------------------------------------------------------------------------

  /** A cell that the pass considers for `v`: still Free, and `v` is accepted at its position. */
  predicate IsHolder(b: Board, p: Pos, v: Value)
    requires p.InRange()
  {
    !b[p.Index()].IsSolved() && IsValueValidAt(b, p.col, p.row, v)
  }

  /** Holders of `v` among ps[k..], in order. */
  function HoldersFrom(b: Board, ps: seq<Pos>, v: Value, k: nat): (hs: seq<Pos>)
    requires k <= |ps| && forall j :: 0 <= j < |ps| ==> ps[j].InRange()
    decreases |ps| - k
    ensures forall p :: p in hs <==> p in ps[k..] && IsHolder(b, p, v)
    ensures (forall m, n :: 0 <= m < n < |ps| ==> ps[m] != ps[n]) ==> forall m, n :: 0 <= m < n < |hs| ==> hs[m] != hs[n]
  {
    if k == |ps| then []
    else
      var p := ps[k];
      var rest := HoldersFrom(b, ps, v, k + 1);
      assert ps[k..] == [p] + ps[k + 1..];
      assert (forall m, n :: 0 <= m < n < |ps| ==> ps[m] != ps[n]) ==> p !in ps[k + 1..];
      if !b[p.Index()].IsSolved() && IsValueValidAt(b, p.col, p.row, v) then [p] + rest else rest
  }

  /**
   * The Free cells of block `nb` at which `v` is accepted: the position set the pass keeps
   * for `v` in that block. The source fills these sets cell by cell, trying each value at
   * each Free cell of the block in turn.
   */
  function Holders(b: Board, nb: nat, v: Value): (hs: seq<Pos>)
    requires nb < BoardSize
    ensures forall p :: p in hs <==> p.InRange() && BlockOf(p) == nb && IsHolder(b, p, v)
    ensures forall m, n :: 0 <= m < n < |hs| ==> hs[m] != hs[n]
  {
    var ps := BlockPositions(nb);
    assert ps[0..] == ps;
    HoldersFrom(b, ps, v, 0)
  }

  /**
   * A candidate table: for each block `nb` and value `v`, a list of positions of that block
   * (at t[nb][v]; entry 0 stays empty). The pass fills one from the board, as `openBlocks`
   * in the source.
   */
  predicate IsTable(t: seq<seq<seq<Pos>>>) {
    && |t| == BoardSize
    && (forall nb :: 0 <= nb < BoardSize ==> |t[nb]| == BoardSize + 1)
    && (forall nb, k, q :: 0 <= nb < BoardSize && 0 <= k < |t[nb]| && q in t[nb][k] ==> q.InRange() && BlockOf(q) == nb)
  }

  /** The candidate table of board `b`. */
  function Candidates(b: Board): (t: seq<seq<seq<Pos>>>)
    ensures IsTable(t)
    ensures forall nb, v: Value :: 0 <= nb < BoardSize && 1 <= v <= 9 ==> t[nb][v] == Holders(b, nb, v)
  {
    seq(BoardSize, nb requires 0 <= nb < BoardSize =>
      seq(BoardSize + 1, v requires 0 <= v <= BoardSize => if v == 0 then [] else Holders(b, nb, v)))
  }

  /** Commits, for the values v..9 of block `nb`, each value with a single candidate position. */
  function CommitValues(t: seq<seq<seq<Pos>>>, b: Board, nb: nat, v: nat, found: bool): (bool, Board)
    requires IsTable(t) && nb < BoardSize && 1 <= v <= 10
    decreases 10 - v
  {
    if v == 10 then (found, b)
    else
      var hs := t[nb][v];
      if |hs| == 1 then CommitValues(t, SetCell(b, hs[0].col, hs[0].row, CellOf(v, Solved)), nb, v + 1, true)
      else CommitValues(t, b, nb, v + 1, found)
  }

  /** Commits the blocks nb..8 in turn. */
  function CommitBlocks(t: seq<seq<seq<Pos>>>, b: Board, nb: nat, found: bool): (bool, Board)
    requires IsTable(t) && nb <= BoardSize
    decreases BoardSize - nb
  {
    if nb == BoardSize then (found, b)
    else
      var r := CommitValues(t, b, nb, 1, found);
      CommitBlocks(t, r.1, nb + 1, r.0)
  }

  /**
   * The value the commit phase leaves in the cell at `p` when only the values v..9 are
   * committed: the largest of them whose single candidate in p's block is `p`, or Empty.
   */
  function ForcedFrom(t: seq<seq<seq<Pos>>>, p: Pos, v: nat): Value
    requires IsTable(t) && p.InRange() && 1 <= v <= 10
    decreases 10 - v
  {
    if v == 10 then Empty
    else
      BlockOfInRange(p);
      var later := ForcedFrom(t, p, v + 1);
      if later != Empty then later
      else if t[BlockOf(p)][v] == [p] then v
      else Empty
  }

  /** The forced value is the largest value whose single candidate in the block is `p`. */
  lemma {:induction false} ForcedIsLargestSingleCandidate(t: seq<seq<seq<Pos>>>, p: Pos, v: nat)
    requires IsTable(t) && p.InRange() && 1 <= v <= 10
    decreases 10 - v
    ensures BlockOf(p) < BoardSize
    ensures var f := ForcedFrom(t, p, v);
      && (f != Empty ==> v <= f <= 9 && t[BlockOf(p)][f] == [p])
      && (forall w: Value :: v <= w <= 9 && w > f ==> t[BlockOf(p)][w] != [p])
  {
    BlockOfInRange(p);
    if v < 10 {
      ForcedIsLargestSingleCandidate(t, p, v + 1);
    }
  }

  /** One step of the value fold: the write made for `v`, as seen from slot `p`. */
  lemma CommitValueStep(t: seq<seq<seq<Pos>>>, b: Board, nb: nat, v: Value, p: Pos)
    requires IsTable(t) && nb < BoardSize && 1 <= v <= 9 && p.InRange()
    ensures var hs := t[nb][v];
      var b' := if |hs| == 1 then SetCell(b, hs[0].col, hs[0].row, CellOf(v, Solved)) else b;
      b'[p.Index()] == if BlockOf(p) == nb && hs == [p] then Cell(p, v, Solved) else b[p.Index()]
  {
    var hs := t[nb][v];
    if |hs| == 1 {
      assert hs[0] in hs;
      assert hs == [hs[0]];
      SetCellAt(b, hs[0], p, CellOf(v, Solved));
    }
  }

  /** The value fold reports a change exactly when it started with one or some value has a single candidate. */
  lemma {:induction false} CommitValuesFound(t: seq<seq<seq<Pos>>>, b: Board, nb: nat, v: nat, found: bool)
    requires IsTable(t) && nb < BoardSize && 1 <= v <= 10
    decreases 10 - v
    ensures CommitValues(t, b, nb, v, found).0 <==> found || exists w: Value :: v <= w <= 9 && |t[nb][w]| == 1
  {
    if v < 10 {
      var hs := t[nb][v];
      var b' := if |hs| == 1 then SetCell(b, hs[0].col, hs[0].row, CellOf(v, Solved)) else b;
      CommitValuesFound(t, b', nb, v + 1, found || |hs| == 1);
      if |hs| == 1 {
        assert |t[nb][v]| == 1;
      }
    }
  }

  /** The value fold writes, in block `nb`, the forced value of each cell, and nothing elsewhere. */
  lemma {:induction false} CommitValuesBoard(t: seq<seq<seq<Pos>>>, b: Board, nb: nat, v: nat, found: bool)
    requires IsTable(t) && nb < BoardSize && 1 <= v <= 10
    decreases 10 - v
    ensures var r := CommitValues(t, b, nb, v, found);
      forall p: Pos :: p.InRange() ==>
        r.1[p.Index()] == if BlockOf(p) == nb && ForcedFrom(t, p, v) != Empty
                          then Cell(p, ForcedFrom(t, p, v), Solved) else b[p.Index()]
  {
    if v < 10 {
      var hs := t[nb][v];
      var b' := if |hs| == 1 then SetCell(b, hs[0].col, hs[0].row, CellOf(v, Solved)) else b;
      CommitValuesBoard(t, b', nb, v + 1, found || |hs| == 1);
      forall p: Pos | p.InRange() {
        CommitValueStep(t, b, nb, v, p);
      }
    }
  }

  /** Some value has exactly one candidate position in block `m`. */
  predicate HasSingle(t: seq<seq<seq<Pos>>>, m: nat)
    requires IsTable(t) && m < BoardSize
  {
    exists w: Value :: 1 <= w <= 9 && |t[m][w]| == 1
  }

  /** The block fold reports a change exactly when it started with one or some block has a single candidate. */
  lemma {:induction false} CommitBlocksFound(t: seq<seq<seq<Pos>>>, b: Board, nb: nat, found: bool)
    requires IsTable(t) && nb <= BoardSize
    decreases BoardSize - nb
    ensures CommitBlocks(t, b, nb, found).0 <==> found || exists m :: nb <= m < BoardSize && HasSingle(t, m)
  {
    if nb < BoardSize {
      CommitValuesFound(t, b, nb, 1, found);
      var r := CommitValues(t, b, nb, 1, found);
      CommitBlocksFound(t, r.1, nb + 1, r.0);
      assert r.0 <==> found || HasSingle(t, nb);
    }
  }

  /** The block fold writes the forced value of each cell in blocks nb..8, and nothing elsewhere. */
  lemma {:induction false} CommitBlocksBoard(t: seq<seq<seq<Pos>>>, b: Board, nb: nat, found: bool)
    requires IsTable(t) && nb <= BoardSize
    decreases BoardSize - nb
    ensures var r := CommitBlocks(t, b, nb, found);
      forall p: Pos :: p.InRange() ==>
        r.1[p.Index()] == if BlockOf(p) >= nb && ForcedFrom(t, p, 1) != Empty
                          then Cell(p, ForcedFrom(t, p, 1), Solved) else b[p.Index()]
  {
    if nb < BoardSize {
      CommitValuesBoard(t, b, nb, 1, found);
      var r := CommitValues(t, b, nb, 1, found);
      CommitBlocksBoard(t, r.1, nb + 1, r.0);
    } else {
      forall p: Pos | p.InRange() ensures BlockOf(p) < BoardSize {
        BlockOfInRange(p);
      }
    }
  }

  /** The holders of `v` in the block that contains `p`. */
  function BlockHolders(b: Board, p: Pos, v: Value): (hs: seq<Pos>)
    requires p.InRange()
    ensures forall q :: q in hs <==> q.InRange() && BlockOf(q) == BlockOf(p) && IsHolder(b, q, v)
  {
    BlockOfInRange(p);
    Holders(b, BlockOf(p), v)
  }

  /** The value one pass over `b` commits at `p` (Empty if none). */
  function Forced(b: Board, p: Pos): Value
    requires p.InRange()
  {
    ForcedFrom(Candidates(b), p, 1)
  }

  /**
   * A cell gets the largest value whose only holder in its block is that cell; such a cell was
   * Free before the pass and the value was accepted there.
   */
  lemma ForcedCell(b: Board, p: Pos)
    requires p.InRange()
    ensures Forced(b, p) != Empty ==>
      && BlockHolders(b, p, Forced(b, p)) == [p]
      && !b[p.Index()].IsSolved() && IsValueValidAt(b, p.col, p.row, Forced(b, p))
    ensures forall w: Value :: Forced(b, p) < w <= 9 ==> BlockHolders(b, p, w) != [p]
  {
    var t := Candidates(b);
    ForcedIsLargestSingleCandidate(t, p, 1);
    var f := Forced(b, p);
    if f != Empty {
      assert BlockHolders(b, p, f) == t[BlockOf(p)][f];
      assert p in BlockHolders(b, p, f);
    }
    forall w: Value | f < w <= 9 ensures BlockHolders(b, p, w) != [p] {
      assert BlockHolders(b, p, w) == t[BlockOf(p)][w];
    }
  }

  /**
   * SudokuSolver::FindByElimination. Every candidate set is computed on the board as it was
   * before the pass; then, block by block and value by value, each value with exactly one
   * Free holder in its block is written there as Solved. A later value committed to the same
   * cell overwrites an earlier one, so a cell ends up with the largest such value.
   */
  function FindByElimination(b: Board): (r: (bool, Board))
    ensures forall p: Pos :: p.InRange() ==>
      r.1[p.Index()] == if Forced(b, p) == Empty then b[p.Index()] else Cell(p, Forced(b, p), Solved)
    ensures r.0 <==> exists nb, v: Value :: 0 <= nb < BoardSize && 1 <= v <= 9 && |Holders(b, nb, v)| == 1
    ensures forall p: Pos :: p.InRange() && r.1[p.Index()] != b[p.Index()] ==>
      && b[p.Index()].state == Free && r.1[p.Index()].state == Solved && r.1[p.Index()].value != Empty
      && IsValueValidAt(b, p.col, p.row, r.1[p.Index()].value)
    ensures Extends(b, r.1)
    ensures r.0 <==> r.1 != b
    ensures r.0 ==> FreeCount(r.1) < FreeCount(b)
  {
    var r := CommitBlocks(Candidates(b), b, 0, false);
    PassWritesForcedValues(b);
    PassReportsSingleHolders(b);
    EliminationChangesOnlyForcedCells(b, r.1);
    EliminationProgress(b, r.0, r.1);
    r
  }

  /** The commit phase over the candidates of `b` writes each cell's forced value. */
  lemma PassWritesForcedValues(b: Board)
    ensures var r := CommitBlocks(Candidates(b), b, 0, false);
      forall p: Pos :: p.InRange() ==>
        r.1[p.Index()] == if Forced(b, p) == Empty then b[p.Index()] else Cell(p, Forced(b, p), Solved)
  {
    CommitBlocksBoard(Candidates(b), b, 0, false);
  }

  /** The commit phase over the candidates of `b` reports a change iff some value has a single holder. */
  lemma PassReportsSingleHolders(b: Board)
    ensures CommitBlocks(Candidates(b), b, 0, false).0 <==>
      exists nb, v: Value :: 0 <= nb < BoardSize && 1 <= v <= 9 && |Holders(b, nb, v)| == 1
  {
    var t := Candidates(b);
    CommitBlocksFound(t, b, 0, false);
    if exists m :: 0 <= m < BoardSize && HasSingle(t, m) {
      var m :| 0 <= m < BoardSize && HasSingle(t, m);
      var w: Value :| 1 <= w <= 9 && |t[m][w]| == 1;
      assert |Holders(b, m, w)| == 1;
    }
    if exists nb, v: Value :: 0 <= nb < BoardSize && 1 <= v <= 9 && |Holders(b, nb, v)| == 1 {
      var nb, v: Value :| 0 <= nb < BoardSize && 1 <= v <= 9 && |Holders(b, nb, v)| == 1;
      assert |t[nb][v]| == 1;
      assert HasSingle(t, nb);
    }
  }

  /** Cells changed by a pass were Free, and now hold a value that was accepted there before the pass. */
  lemma EliminationChangesOnlyForcedCells(b: Board, b': Board)
    requires forall p: Pos :: p.InRange() ==>
      b'[p.Index()] == if Forced(b, p) == Empty then b[p.Index()] else Cell(p, Forced(b, p), Solved)
    ensures forall p: Pos :: p.InRange() && b'[p.Index()] != b[p.Index()] ==>
      && b[p.Index()].state == Free && b'[p.Index()].state == Solved && b'[p.Index()].value != Empty
      && IsValueValidAt(b, p.col, p.row, b'[p.Index()].value)
    ensures Extends(b, b')
  {
    forall p: Pos | p.InRange() {
      ForcedCell(b, p);
    }
    forall i | 0 <= i < CellCount && b[i].IsSolved() ensures b'[i] == b[i] {
      IndexBijection(PosOf(i), i);
      ForcedCell(b, PosOf(i));
    }
  }

  /** A pass reports a change exactly when it committed a cell, and then the Free count drops. */
  lemma EliminationProgress(b: Board, found: bool, b': Board)
    requires found <==> exists nb, v: Value :: 0 <= nb < BoardSize && 1 <= v <= 9 && |Holders(b, nb, v)| == 1
    requires forall p: Pos :: p.InRange() ==>
      b'[p.Index()] == if Forced(b, p) == Empty then b[p.Index()] else Cell(p, Forced(b, p), Solved)
    ensures found <==> b' != b
    ensures found ==> FreeCount(b') < FreeCount(b)
  {
    forall j | 0 <= j < CellCount && b[j].IsSolved() ensures b'[j].IsSolved() {
      IndexBijection(PosOf(j), j);
      ForcedCell(b, PosOf(j));
    }
    if found {
      var nb, v: Value :| 0 <= nb < BoardSize && 1 <= v <= 9 && |Holders(b, nb, v)| == 1;
      var p := Holders(b, nb, v)[0];
      assert Holders(b, nb, v) == [p];
      assert p in Holders(b, nb, v);
      assert BlockHolders(b, p, v) == [p];
      IndexBijection(p, 0);
      ForcedCell(b, p);
      assert !b[p.Index()].IsSolved() && b'[p.Index()].IsSolved();
      FreeCountDrops(b, b', p.Index());
    } else {
      forall i | 0 <= i < CellCount ensures b'[i] == b[i] {
        IndexBijection(PosOf(i), i);
        ForcedCell(b, PosOf(i));
      }
      assert b' == b;
    }
  }

  // ---------------------------------------------------------------------------
  // The elimination loop
  // ---------------------------------------------------------------------------

  /** A board operation that reports whether it changed the board, as an elimination pass does. */
  type Step = Board -> (bool, Board)

  /** The board after `n` applications of `pass` to `b`. */
  function Passes(pass: Step, b: Board, n: nat): Board
    decreases n
  {
    if n == 0 then b else pass(Passes(pass, b, n - 1)).1
  }

  /**
   * A loop over `pass` that stops once `done` holds went on after each of its first `n`
   * passes: each reported a change and left a board that is not done.
   */
  predicate WentOn(pass: Step, done: Board -> bool, b: Board, n: nat)
    decreases n
  {
    n == 0 || (WentOn(pass, done, b, n - 1) && pass(Passes(pass, b, n - 1)).0 && !done(Passes(pass, b, n)))
  }

  /** `b'` is the board after `n` passes over `b`, and the loop went on after every earlier pass. */
  predicate RanPasses(pass: Step, done: Board -> bool, b: Board, b': Board, n: int) {
    n >= 1 && b' == Passes(pass, b, n) && WentOn(pass, done, b, n - 1)
  }

  /** `b'` differs from `b` only where a Free cell became a filled Solved cell. */
  predicate FillsFree(b: Board, b': Board) {
    forall i :: 0 <= i < CellCount && b'[i] != b[i] ==>
      b[i].state == Free && b'[i].state == Solved && b'[i].value != Empty
  }

  /**
   * What the elimination loop relies on from a pass: it keeps every non-Free cell, changes a
   * cell only by filling a Free one, reports a change exactly when it made one, and lowers the
   * Free count when it does.
   */
  ghost predicate IsPass(pass: Step) {
    forall x: Board :: PassBehaves(pass, x)
  }

  /** `pass` behaves as a pass on `x`. */
  ghost predicate PassBehaves(pass: Step, x: Board) {
    Extends(x, pass(x).1) && FillsFree(x, pass(x).1) && (pass(x).0 <==> pass(x).1 != x) &&
    (pass(x).0 ==> FreeCount(pass(x).1) < FreeCount(x))
  }

  /**
   * SudokuSolver::SolveBoardByElimination: repeats the elimination pass until the board is
   * solved or a pass changes nothing. `steps` counts the passes after which the loop went on
   * or stopped solved: every pass but a final one that changed nothing.
   */
  method SolveBoardByElimination(b: Board, steps: int) returns (solved: bool, b': Board, steps': int)
    ensures solved <==> IsBoardSolved(b')
    ensures !solved ==> IsStuck(b')
    ensures RanPasses(FindByElimination, IsBoardSolved, b, b', steps' - steps + (if solved then 0 else 1))
    ensures Extends(b, b')
    ensures forall p: Pos :: p.InRange() && b'[p.Index()] != b[p.Index()] ==>
      b[p.Index()].state == Free && b'[p.Index()].state == Solved && b'[p.Index()].value != Empty
    ensures steps <= steps' <= steps + FreeCount(b) - FreeCount(b') + 1
    ensures SolvedInOnePass(b) ==> solved && b' == FindByElimination(b).1 && steps' == steps + 1
  {
    EliminationIsAPass();
    solved, b', steps' := RunPasses(FindByElimination, IsBoardSolved, b, steps);
  }

  /**
   * SolveBoardByElimination over any operation that behaves as a pass and any test `done` for
   * a finished board.
   */
  method RunPasses(pass: Step, done: Board -> bool, b: Board, steps: int) returns (solved: bool, b': Board, steps': int)
    requires IsPass(pass)
    ensures solved <==> done(b')
    ensures !solved ==> pass(b') == (false, b')
    ensures RanPasses(pass, done, b, b', steps' - steps + (if solved then 0 else 1))
    ensures Extends(b, b') && FillsFree(b, b')
    ensures steps <= steps' <= steps + FreeCount(b) - FreeCount(b') + 1
    ensures done(pass(b).1) ==> solved && b' == pass(b).1 && steps' == steps + 1
  {
    solved, b', steps' := PassLoop(pass, done, b, steps);
    RanPassesFacts(pass, done, b, b', steps' - steps + (if solved then 0 else 1));
  }

  /** A loop whose first pass leaves a done board stops after that pass. */
  lemma FirstPassDone(pass: Step, done: Board -> bool, b: Board, b': Board, n: int)
    requires RanPasses(pass, done, b, b', n) && done(pass(b).1)
    ensures n == 1 && b' == pass(b).1
  {
    if n > 1 {
      WentOnPrefix(pass, done, b, n - 1, 1);
      assert false;
    }
  }

  /** Going on after `n` passes includes going on after each earlier count `m`. */
  lemma {:induction false} WentOnPrefix(pass: Step, done: Board -> bool, b: Board, n: nat, m: nat)
    requires WentOn(pass, done, b, n) && m <= n
    ensures WentOn(pass, done, b, m)
    decreases n
  {
    if m < n {
      WentOnPrefix(pass, done, b, n - 1, m);
    }
  }

  /** The loop of RunPasses: it tracks how many passes ran and after how many it went on. */
  method PassLoop(pass: Step, done: Board -> bool, b: Board, steps: int) returns (solved: bool, b': Board, steps': int)
    requires IsPass(pass)
    ensures solved <==> done(b')
    ensures !solved ==> pass(b') == (false, b')
    ensures RanPasses(pass, done, b, b', steps' - steps + (if solved then 0 else 1))
    ensures done(pass(b).1) ==> solved && b' == pass(b).1 && steps' == steps + 1
  {
    solved := false;
    b' := b;
    steps' := steps;
    ghost var n: nat := 0;
    ghost var went: nat := 0;
    ghost var most := MostPasses(pass, done, b);
    while !solved
      invariant b' == Passes(pass, b, n) && WentOn(pass, done, b, went) && went <= most
      invariant !solved ==> went == n && steps' == steps + n
      invariant solved ==> n == went + 1 && steps' == steps + n && done(b')
      decreases most - went + (if solved then 0 else 1)
    {
      var r := pass(b');
      PassReportsChange(pass, b');
      NextPass(pass, done, b, n, b');
      went := n;
      b' := r.1;
      n := n + 1;
      solved := done(b');
      if !solved && !r.0 {
        break;
      }
      if !solved {
        went := n;
      }
      steps' := steps' + 1;
    }
    if done(pass(b).1) {
      FirstPassDone(pass, done, b, b', steps' - steps + (if solved then 0 else 1));
    }
  }

  /** A pass reports a change exactly when it made one. */
  lemma PassReportsChange(pass: Step, x: Board)
    requires IsPass(pass)
    ensures pass(x).0 <==> pass(x).1 != x
  {
    assert PassBehaves(pass, x);
  }

  /** A bound on how many passes the loop can go on after. */
  lemma MostPasses(pass: Step, done: Board -> bool, b: Board) returns (most: nat)
    requires IsPass(pass)
    ensures forall n: nat :: WentOn(pass, done, b, n) ==> n <= most
  {
    most := FreeCount(b);
    forall n: nat | WentOn(pass, done, b, n)
      ensures n <= most
    {
      WentOnBound(pass, done, b, n);
    }
  }

  /** The loop cannot go on after more passes than there are Free cells. */
  lemma WentOnBound(pass: Step, done: Board -> bool, b: Board, n: nat)
    requires IsPass(pass) && WentOn(pass, done, b, n)
    ensures n <= FreeCount(b)
  {
    PassesFreeCount(pass, done, b, n);
  }

  /**
   * After `k` passes, the last possibly without change, the board extends `b`, differs from it
   * only in filled Free cells, and at least `k - 1` Free cells were filled.
   */
  lemma RanPassesFacts(pass: Step, done: Board -> bool, b: Board, b': Board, k: int)
    requires IsPass(pass) && RanPasses(pass, done, b, b', k)
    ensures Extends(b, b') && FillsFree(b, b')
    ensures FreeCount(b') + k - 1 <= FreeCount(b)
  {
    var went := k - 1;
    PassesFillFreeCells(pass, b, k);
    PassesFreeCount(pass, done, b, went);
    LastPass(pass, b, went, k);
  }

  /** A pass that reports a change lowers the Free count. */
  lemma PassLowersFreeCount(pass: Step, x: Board)
    requires IsPass(pass)
    ensures pass(x).0 ==> FreeCount(pass(x).1) < FreeCount(x)
  {
    assert PassBehaves(pass, x);
  }

  /** FindByElimination is a pass in the sense the loop relies on. */
  lemma EliminationIsAPass()
    ensures IsPass(FindByElimination)
  {
    forall x: Board ensures PassBehaves(FindByElimination, x) {
      PassFillsFree(x);
    }
  }

  /** Pass `n + 1` runs on the board after pass `n`; the loop goes on after it when it reports a change and does not solve. */
  lemma NextPass(pass: Step, done: Board -> bool, b: Board, n: nat, cur: Board)
    requires cur == Passes(pass, b, n)
    ensures Passes(pass, b, n + 1) == pass(cur).1
    ensures WentOn(pass, done, b, n) && pass(cur).0 && !done(pass(cur).1) ==> WentOn(pass, done, b, n + 1)
  {
  }

  /** One elimination pass only fills Free cells. */
  lemma PassFillsFree(c: Board)
    ensures FillsFree(c, FindByElimination(c).1)
  {
    var d := FindByElimination(c).1;
    forall i | 0 <= i < CellCount && d[i] != c[i]
      ensures c[i].state == Free && d[i].state == Solved && d[i].value != Empty
    {
      IndexBijection(PosOf(i), i);
    }
  }

  /** Filling Free cells twice is filling Free cells. */
  lemma FillsFreeTransitive(a: Board, b: Board, c: Board)
    requires FillsFree(a, b) && FillsFree(b, c)
    ensures FillsFree(a, c)
  {
  }

  /** Repeated passes keep every non-Free cell, and change a cell only from Free to a filled Solved cell. */
  lemma {:induction false} PassesFillFreeCells(pass: Step, b: Board, n: nat)
    requires IsPass(pass)
    ensures Extends(b, Passes(pass, b, n))
    ensures FillsFree(b, Passes(pass, b, n))
  {
    if n > 0 {
      var c := Passes(pass, b, n - 1);
      PassesFillFreeCells(pass, b, n - 1);
      assert PassBehaves(pass, c);
      ExtendsTransitive(b, c, pass(c).1);
      FillsFreeTransitive(b, c, pass(c).1);
    }
  }

  /** Each of the first `n` passes, after which the loop went on, filled at least one Free cell. */
  lemma {:induction false} PassesFreeCount(pass: Step, done: Board -> bool, b: Board, n: nat)
    requires IsPass(pass) && WentOn(pass, done, b, n)
    ensures FreeCount(Passes(pass, b, n)) + n <= FreeCount(b)
  {
    if n > 0 {
      var k := n - 1;
      NextPassFreeCount(pass, done, b, k);
      PassesFreeCount(pass, done, b, k);
    }
  }

  /** The loop went on after pass `n` only when that pass filled a Free cell. */
  lemma NextPassFreeCount(pass: Step, done: Board -> bool, b: Board, k: nat)
    requires IsPass(pass) && WentOn(pass, done, b, k + 1)
    ensures WentOn(pass, done, b, k)
    ensures FreeCount(Passes(pass, b, k + 1)) < FreeCount(Passes(pass, b, k))
  {
    var c := Passes(pass, b, k);
    assert Passes(pass, b, k + 1) == pass(c).1;
    assert pass(c).0;
    PassLowersFreeCount(pass, c);
  }

  /** The last pass never raises the Free count. */
  lemma LastPass(pass: Step, b: Board, k: nat, n: nat)
    requires IsPass(pass) && n == k + 1
    ensures FreeCount(Passes(pass, b, n)) <= FreeCount(Passes(pass, b, k))
  {
    var c := Passes(pass, b, k);
    assert PassBehaves(pass, c);
    FreeCountDrops(c, pass(c).1, 0);
  }

  /** A pass over `b` changes nothing: the elimination loop stops at such a board. */
  predicate IsStuck(b: Board) {
    FindByElimination(b) == (false, b)
  }

  /** One elimination pass turns `b` into a board that passes the whole-board check. */
  predicate SolvedInOnePass(b: Board) {
    IsBoardSolved(FindByElimination(b).1)
  }

  /** Keeping the solved cells is transitive. */
  lemma ExtendsTransitive(a: Board, b: Board, c: Board)
    requires Extends(a, b) && Extends(b, c)
    ensures Extends(a, c)
  {
  }

  // ---------------------------------------------------------------------------
  // The backtracking search
  // ---------------------------------------------------------------------------

  /** An order in which the search tries values: the nine digits, each once. */
  predicate IsValueOrder(s: seq<Value>) {
    && |s| == BoardSize
    && (forall v: Value :: 1 <= v <= 9 ==> v in s)
    && (forall k :: 0 <= k < |s| ==> s[k] != Empty)
  }

  /** The first Free cell in row-major order, where the search branches. */
  function FirstFree(b: Board): (r: Option<Pos>)
    ensures r.None? <==> forall i :: 0 <= i < CellCount ==> b[i].IsSolved()
    ensures r.Some? ==> && r.value.InRange() && !b[r.value.Index()].IsSolved()
                        && forall i :: 0 <= i < r.value.Index() ==> b[i].IsSolved()
  {
    var free := GetFreeCells(b);
    FirstFreeFacts(b);
    if |free| == 0 then None else Some(free[0])
  }

  lemma FirstFreeFacts(b: Board)
    ensures var free := GetFreeCells(b);
      && (|free| == 0 <==> forall i :: 0 <= i < CellCount ==> b[i].IsSolved())
      && (|free| > 0 ==> && free[0].InRange() && !b[free[0].Index()].IsSolved()
                         && forall i :: 0 <= i < free[0].Index() ==> b[i].IsSolved())
  {
    var free := GetFreeCells(b);
    forall i | 0 <= i < CellCount && !b[i].IsSolved() ensures |free| > 0 && free[0].Index() <= i {
      IndexBijection(PosOf(i), i);
      assert PosOf(i) in free;
      var m :| 0 <= m < |free| && free[m] == PosOf(i);
    }
    if |free| > 0 {
      assert free[0] in free;
      IndexBijection(free[0], 0);
    }
  }

  /** The cell the search writes when it tries `v` at `p`. */
  function Trial(b: Board, p: Pos, v: Value): (b': Board)
    requires p.InRange()
    ensures b'[p.Index()] == Cell(p, v, New)
    ensures forall i :: 0 <= i < CellCount && i != p.Index() ==> b'[i] == b[i]
  {
    SetCellAt(b, p, p, Cell(p, v, New));
    IndexBijection(p, 0);
    SetCell(b, p.col, p.row, Cell(p, v, New))
  }

  /**
   * SudokuSolver::SolveBoardByRecursion. The board is passed by value: each frame runs one
   * elimination pass on its own copy, returns it if solved, and otherwise branches on the
   * first Free cell, trying each value of `shuffle(steps')` that is accepted there, with the
   * cell marked New. When every value fails it resets the cell and gives up.
   *
   * The random order of the source is the parameter `shuffle`, keyed by the step count after
   * this frame's increment. `written` is the last board this call stored through `pBoard`
   * (None if it stored none): the solved board on success, the board with the branching cell
   * reset after a frame gave up.
   */
  method SolveBoardByRecursion(board: Board, shuffle: int -> seq<Value>, steps: int)
    returns (solved: bool, written: Option<Board>, steps': int)
    requires forall k :: IsValueOrder(shuffle(k))
    decreases FreeCount(board)
    ensures solved ==> written.Some? && IsBoardSolved(written.value)
    ensures written.Some? ==> Extends(board, written.value)
    ensures written.Some? ==> SearchWrites(board, written.value)
    ensures written.Some? && !solved ==> !IsBoardSolved(written.value)
    ensures !solved ==> written == GiveUpBoard(board)
    ensures SolvedInOnePass(board) ==> solved && written == Some(FindByElimination(board).1) && steps' == steps
    ensures !SolvedInOnePass(board) ==> steps' > steps
    ensures solved && !SolvedInOnePass(board) ==>
      var e := FindByElimination(board).1;
      && FirstFree(e).Some?
      && written.value[FirstFree(e).value.Index()].state == New
      && ConflictFree(Cleared(e, FirstFree(e).value), FirstFree(e).value, written.value[FirstFree(e).value.Index()].value)
    ensures steps' >= steps
  {
    var e := FindByElimination(board).1;
    EliminationWrites(board);
    if IsBoardSolved(e) {
      return true, Some(e), steps;
    }
    steps' := steps + 1;
    written := None;
    var first := FirstFree(e);
    if first.None? {
      return false, written, steps';
    }
    var p := first.value;
    BranchCellWasFree(board, e, p);
    var order := shuffle(steps');
    var cur := e;
    var k := 0;
    while k < |order|
      invariant 0 <= k <= |order|
      invariant steps' > steps
      invariant forall i :: 0 <= i < CellCount && i != p.Index() ==> cur[i] == e[i]
      invariant SearchWrites(board, cur)
      invariant written.Some? ==> Extends(board, written.value) && !IsBoardSolved(written.value)
      invariant written.Some? ==> SearchWrites(board, written.value)
    {
      var v := order[k];
      if IsValueValidAt(cur, p.col, p.row, v) {
        TrialWrites(board, cur, p, v);
        ghost var cur0 := cur;
        cur := Trial(cur, p, v);
        TrialShrinks(board, e, cur, p);
        var s, w, st := SolveBoardByRecursion(cur, shuffle, steps');
        steps' := st;
        if w.Some? {
          SearchWritesTransitive(board, cur, w.value);
          written := w;
        }
        if s {
          IsValueValidAtMeaning(cur0, p.col, p.row, v);
          AcceptedTrialIsConflictFree(e, cur0, p, v);
          assert written.value[p.Index()] == cur[p.Index()];
          return true, written, steps';
        }
      }
      k := k + 1;
    }
    cur := SetCell(cur, p.col, p.row, DefaultCell());
    ResetLeavesUnsolved(board, e, cur, p);
    ResetIsCleared(board, e, cur, p);
    written := Some(cur);
    solved := false;
  }

  /**
   * `b'` differs from `b` only in cells that were Free in `b`, each now holding a value
   * (Solved by elimination or New from a trial) or reset to an empty Free cell.
   */
  predicate SearchWrites(b: Board, b': Board) {
    forall i :: 0 <= i < CellCount && b'[i] != b[i] ==>
      && b[i].state == Free
      && (|| ((b'[i].state == Solved || b'[i].state == New) && b'[i].value != Empty)
          || b'[i] == Cell(PosOf(i), Empty, Free))
  }

  /**
   * What a frame that does not solve stores last: nothing when the eliminated board has no
   * Free cell, else the eliminated board with its first Free cell reset to an empty Free cell.
   */
  function GiveUpBoard(board: Board): Option<Board> {
    var e := FindByElimination(board).1;
    match FirstFree(e)
    case None => None
    case Some(p) => Some(Cleared(e, p))
  }

  /**
   * A value the placement check accepted at `p` on a board that agrees with `e` away from `p`
   * conflicts with nothing in `e`'s units once `p` is emptied.
   */
  lemma AcceptedTrialIsConflictFree(e: Board, cur: Board, p: Pos, v: Value)
    requires p.InRange()
    requires forall i :: 0 <= i < CellCount && i != p.Index() ==> cur[i] == e[i]
    requires ConflictFree(cur, p, v)
    ensures ConflictFree(Cleared(e, p), p, v)
  {
    var c := Cleared(e, p);
    forall i | 0 <= i < CellCount && SharesUnit(PosOf(i), p) && c[i].value != Empty
      ensures c[i].value != v
    {
      assert i != p.Index();
    }
  }

  /** The search's writes compose. */
  lemma SearchWritesTransitive(a: Board, b: Board, c: Board)
    requires SearchWrites(a, b) && SearchWrites(b, c)
    ensures SearchWrites(a, c)
  {
  }

  /** An elimination pass writes as the search may. */
  lemma EliminationWrites(board: Board)
    ensures SearchWrites(board, FindByElimination(board).1)
  {
    PassFillsFree(board);
  }

  /** The cell the search branches on was Free before the pass as well. */
  lemma BranchCellWasFree(board: Board, e: Board, p: Pos)
    requires e == FindByElimination(board).1
    requires p.InRange() && !e[p.Index()].IsSolved()
    ensures board[p.Index()].state == Free
  {
    PassFillsFree(board);
  }

  /** A trial of a digit at a cell that was Free in `board` keeps the search's writes. */
  lemma TrialWrites(board: Board, cur: Board, p: Pos, v: Value)
    requires SearchWrites(board, cur) && p.InRange() && board[p.Index()].state == Free && v != Empty
    ensures SearchWrites(board, Trial(cur, p, v))
  {
  }

  /**
   * The board a frame stores when it gives up is the eliminated board with the branching
   * cell cleared, and the search may write it.
   */
  lemma ResetIsCleared(board: Board, e: Board, cur: Board, p: Pos)
    requires SearchWrites(board, e) && p.InRange() && board[p.Index()].state == Free
    requires cur[p.Index()] == Cell(p, Empty, Free)
    requires forall i :: 0 <= i < CellCount && i != p.Index() ==> cur[i] == e[i]
    ensures cur == Cleared(e, p)
    ensures SearchWrites(board, cur)
  {
    var c := Cleared(e, p);
    assert forall i :: 0 <= i < CellCount ==> cur[i] == c[i];
    IndexBijection(p, 0);
  }

  /** A trial at the branching cell extends the input and has fewer Free cells than it. */
  lemma TrialShrinks(board: Board, e: Board, cur: Board, p: Pos)
    requires Extends(board, e) && p.InRange() && !e[p.Index()].IsSolved()
    requires cur[p.Index()].IsSolved()
    requires forall i :: 0 <= i < CellCount && i != p.Index() ==> cur[i] == e[i]
    ensures Extends(board, cur)
    ensures FreeCount(cur) < FreeCount(board)
  {
    IndexBijection(p, 0);
    FreeCountDrops(e, cur, p.Index());
    FreeCountDrops(board, e, 0);
  }

  /** The board a frame stores when it gives up extends its input and fails the whole-board check. */
  lemma ResetLeavesUnsolved(board: Board, e: Board, cur: Board, p: Pos)
    requires Extends(board, e) && p.InRange() && !e[p.Index()].IsSolved()
    requires cur[p.Index()] == Cell(p, Empty, Free)
    requires forall i :: 0 <= i < CellCount && i != p.Index() ==> cur[i] == e[i]
    ensures Extends(board, cur)
    ensures !IsBoardSolved(cur)
  {
    IndexBijection(p, 0);
    if IsBoardSolved(cur) {
      SolvedBoardIsFilled(cur);
    }
  }

  // ---------------------------------------------------------------------------
  // ReverseSolve
  // ---------------------------------------------------------------------------

  /** Scans the values v..9 at `p`; stays true iff every value accepted there equals `prev`. */
  function OnlyOneFrom(b: Board, p: Pos, prev: Value, v: nat): (onlyone: bool)
    requires p.InRange() && 1 <= v <= 10
    decreases 10 - v
    ensures onlyone <==> forall w: Value :: v <= w <= 9 && IsValueValidAt(b, p.col, p.row, w) ==> w == prev
  {
    if v == 10 then true
    else
      var rest := OnlyOneFrom(b, p, prev, v + 1);
      if IsValueValidAt(b, p.col, p.row, v) && v != prev then false else rest
  }

  /** The board with the cell at `p` emptied, as `SetCell(pos, SCell{SValue_Empty})` leaves it. */
  function Cleared(b: Board, p: Pos): (b': Board)
    requires p.InRange()
    ensures b'[p.Index()] == Cell(p, Empty, Free)
    ensures forall i :: 0 <= i < CellCount && i != p.Index() ==> b'[i] == b[i]
    ensures forall q: Pos :: q.InRange() && q != p ==> b'[q.Index()] == b[q.Index()]
  {
    SetCellAt(b, p, p, CellOf(Empty));
    IndexBijection(p, 0);
    SetCell(b, p.col, p.row, CellOf(Empty))
  }

  /**
   * One iteration of ReverseSolve at `p`: empty the cell, then keep it empty only if every
   * value accepted there is the value it held; otherwise put the old cell back.
   */
  function ReverseStep(b: Board, p: Pos): (b': Board)
    requires p.InRange()
    ensures var onlyone := forall w: Value :: 1 <= w <= 9 && IsValueValidAt(Cleared(b, p), p.col, p.row, w) ==> w == b[p.Index()].value;
      && (onlyone ==> b' == Cleared(b, p))
      && (!onlyone ==> b' == b)
  {
    var prev := GetCell(b, p.col, p.row);
    var cleared := Cleared(b, p);
    if OnlyOneFrom(cleared, p, prev.value, 1) then cleared
    else
      RestoreUndoesClear(b, p);
      SetCell(cleared, p.col, p.row, prev)
  }

  /** Writing the old cell back after clearing gives back the original board. */
  lemma RestoreUndoesClear(b: Board, p: Pos)
    requires p.InRange()
    ensures SetCell(Cleared(b, p), p.col, p.row, GetCell(b, p.col, p.row)) == b
  {
    var r := SetCell(Cleared(b, p), p.col, p.row, GetCell(b, p.col, p.row));
    forall i | 0 <= i < CellCount ensures r[i] == b[i] {
      IndexBijection(p, i);
      SetCellAt(Cleared(b, p), p, PosOf(i), GetCell(b, p.col, p.row));
    }
  }

  /** Every position in `visit` lies on the board. */
  predicate AllInRange(visit: seq<Pos>) {
    forall j :: 0 <= j < |visit| ==> visit[j].InRange()
  }

  /** The board after ReverseStep at each position of `visit`, in order. */
  function ReverseSteps(b: Board, visit: seq<Pos>): Board
    requires AllInRange(visit)
    decreases |visit|
  {
    if |visit| == 0 then b
    else ReverseStep(ReverseSteps(b, visit[..|visit| - 1]), visit[|visit| - 1])
  }

  /** The loop of ReverseSolve: one ReverseStep per position of `visit`, in order. */
  method ReverseLoop(b: Board, visit: seq<Pos>) returns (b': Board)
    requires AllInRange(visit)
    ensures b' == ReverseSteps(b, visit)
  {
    b' := b;
    for k := 0 to |visit|
      invariant b' == ReverseSteps(b, visit[..k])
    {
      b' := ReverseStep(b', visit[k]);
      ReverseStepsSnoc(b, visit, k);
    }
    assert visit[..|visit|] == visit;
  }

  /**
   * After the steps at the first `k` visited positions, every cell is unchanged or was
   * emptied from a non-Free cell.
   */
  lemma {:induction false} ReverseStepsEmpty(b: Board, visit: seq<Pos>, k: nat)
    requires multiset(visit) == multiset(GetSolvedCells(b))
    requires AllInRange(visit) && k <= |visit|
    ensures AllInRange(visit[..k])
    ensures EmptiedFrom(b, ReverseSteps(b, visit[..k]))
    decreases k
  {
    if k > 0 {
      ReverseStepsEmpty(b, visit, k - 1);
      assert visit[k - 1] in multiset(visit);
      ReverseStepEmpties(b, ReverseSteps(b, visit[..k - 1]), visit[k - 1]);
      ReverseStepsSnoc(b, visit, k - 1);
    }
  }

  /**
   * After the steps at the first `k` of the distinct, non-Free positions in `visit`, the
   * cells still to visit are unchanged and every visited cell that was kept is contested.
   */
  lemma {:induction false} ReverseStepsContest(b: Board, visit: seq<Pos>, k: nat)
    requires forall j :: 0 <= j < |visit| ==> visit[j].InRange() && b[visit[j].Index()].IsSolved()
    requires forall m, n :: 0 <= m < n < |visit| ==> visit[m] != visit[n]
    requires AllInRange(visit) && k <= |visit|
    ensures AllInRange(visit[..k])
    ensures KeptUnvisited(b, ReverseSteps(b, visit[..k]), visit, k)
    ensures ContestedVisited(b, ReverseSteps(b, visit[..k]), visit, k)
    decreases k
  {
    if k > 0 {
      ReverseStepsContest(b, visit, k - 1);
      ReverseStepsSnoc(b, visit, k - 1);
      ReverseStepKeeps(b, ReverseSteps(b, visit[..k - 1]), ReverseSteps(b, visit[..k]), visit, k - 1);
    }
  }

  /** One more step of the fold over a prefix of `visit`. */
  lemma ReverseStepsSnoc(b: Board, visit: seq<Pos>, k: nat)
    requires AllInRange(visit) && k < |visit|
    ensures AllInRange(visit[..k]) && AllInRange(visit[..k + 1])
    ensures ReverseSteps(b, visit[..k + 1]) == ReverseStep(ReverseSteps(b, visit[..k]), visit[k])
  {
    assert visit[..k + 1][..k] == visit[..k];
  }

  /**
   * SudokuSolver::ReverseSolve: visits every non-Free cell once, in the shuffled order
   * `visit`, and empties it when the value it held is the only one still accepted there.
   * The random shuffle of the source is the parameter `visit`. Always reports true.
   * Every non-Free cell it keeps is contested: with that cell emptied, the final board
   * accepts a different digit there.
   */
  method ReverseSolve(b: Board, visit: seq<Pos>) returns (done: bool, b': Board)
    requires multiset(visit) == multiset(GetSolvedCells(b))
    ensures done
    ensures AllInRange(visit) && b' == ReverseSteps(b, visit)
    ensures Extends(b', b)
    ensures forall p: Pos :: p.InRange() ==>
      b'[p.Index()] == b[p.Index()] || (b[p.Index()].IsSolved() && b'[p.Index()] == Cell(p, Empty, Free))
    ensures forall q: Pos :: q.InRange() && b[q.Index()].IsSolved() && b'[q.Index()] == b[q.Index()] ==>
      Contested(b', q, b[q.Index()].value)
  {
    VisitCoversSolvedCells(b, visit);
    b' := ReverseLoop(b, visit);
    done := true;
    ReverseStepsEmpty(b, visit, |visit|);
    ReverseStepsContest(b, visit, |visit|);
    assert visit[..|visit|] == visit;
    EmptiedFromExtends(b, b');
    forall q: Pos | q.InRange() && b[q.Index()].IsSolved() && b'[q.Index()] == b[q.Index()]
      ensures Contested(b', q, b[q.Index()].value)
    {
      assert GetCell(b, q.col, q.row) == b[q.Index()];
      assert q in multiset(GetSolvedCells(b));
      var j :| 0 <= j < |visit| && visit[j] == q;
    }
  }

  /** With the cell at `q` emptied, `b` accepts some digit there other than `v`. */
  predicate Contested(b: Board, q: Pos, v: Value)
    requires q.InRange()
  {
    exists w: Value :: 1 <= w <= 9 && w != v && IsValueValidAt(Cleared(b, q), q.col, q.row, w)
  }

  /** The visiting order lists exactly the non-Free cells of `b`, each once. */
  lemma VisitCoversSolvedCells(b: Board, visit: seq<Pos>)
    requires multiset(visit) == multiset(GetSolvedCells(b))
    ensures forall j :: 0 <= j < |visit| ==> visit[j].InRange() && b[visit[j].Index()].IsSolved()
    ensures forall m, n :: 0 <= m < n < |visit| ==> visit[m] != visit[n]
  {
    forall j | 0 <= j < |visit| ensures visit[j].InRange() && b[visit[j].Index()].IsSolved() {
      VisitedIsSolved(b, visit, j);
    }
    forall m, n | 0 <= m < n < |visit| ensures visit[m] != visit[n] {
      VisitedOnce(b, visit, m, n);
    }
  }

  /** Each visited position is a non-Free cell of the board. */
  lemma VisitedIsSolved(b: Board, visit: seq<Pos>, j: nat)
    requires multiset(visit) == multiset(GetSolvedCells(b)) && j < |visit|
    ensures visit[j].InRange() && b[visit[j].Index()].IsSolved()
  {
    assert visit[j] in multiset(GetSolvedCells(b));
    assert GetCell(b, visit[j].col, visit[j].row) == b[visit[j].Index()];
  }

  /** No position is visited twice. */
  lemma VisitedOnce(b: Board, visit: seq<Pos>, m: nat, n: nat)
    requires multiset(visit) == multiset(GetSolvedCells(b)) && m < n < |visit|
    ensures visit[m] != visit[n]
  {
    if visit[m] == visit[n] {
      RepeatCountsTwice(visit, m, n);
      DistinctCountsOnce(GetSolvedCells(b), visit[m]);
    }
  }

  /** A sequence of positions with strictly increasing indices holds each position at most once. */
  lemma DistinctCountsOnce(s: seq<Pos>, x: Pos)
    requires forall m, n :: 0 <= m < n < |s| ==> s[m].Index() < s[n].Index()
    ensures multiset(s)[x] <= 1
  {
    if |s| > 0 {
      assert s == [s[0]] + s[1..];
      DistinctCountsOnce(s[1..], x);
      if s[0] == x {
        assert x !in s[1..];
      }
    }
  }

  /** An element found at two indices is counted at least twice. */
  lemma RepeatCountsTwice(s: seq<Pos>, m: nat, n: nat)
    requires m < n < |s| && s[m] == s[n]
    ensures multiset(s)[s[m]] >= 2
  {
    var x := s[m];
    assert s == s[..n] + [x] + s[n + 1..];
    assert s[..n][m] == x;
  }

  /** The cells ReverseSolve has not visited yet still hold what they held in `b`. */
  ghost predicate KeptUnvisited(b: Board, cur: Board, visit: seq<Pos>, k: int) {
    forall j :: 0 <= k <= j < |visit| && visit[j].InRange() ==> cur[visit[j].Index()] == b[visit[j].Index()]
  }

  /** Every visited cell that was kept is contested in `cur`. */
  ghost predicate ContestedVisited(b: Board, cur: Board, visit: seq<Pos>, k: int) {
    forall j :: 0 <= j < k && j < |visit| && visit[j].InRange() && cur[visit[j].Index()] == b[visit[j].Index()] ==>
      Contested(cur, visit[j], b[visit[j].Index()].value)
  }

  /** A step of ReverseSolve keeps both per-visit invariants. */
  lemma ReverseStepKeeps(b: Board, cur: Board, next: Board, visit: seq<Pos>, k: nat)
    requires forall j :: 0 <= j < |visit| ==> visit[j].InRange() && b[visit[j].Index()].IsSolved()
    requires forall m, n :: 0 <= m < n < |visit| ==> visit[m] != visit[n]
    requires k < |visit| && KeptUnvisited(b, cur, visit, k) && ContestedVisited(b, cur, visit, k)
    requires next == ReverseStep(cur, visit[k])
    ensures KeptUnvisited(b, next, visit, k + 1) && ContestedVisited(b, next, visit, k + 1)
  {
    var p := visit[k];
    forall i | 0 <= i < CellCount ensures next[i] == cur[i] || next[i].value == Empty {
    }
    forall j | 0 <= j < k && next[visit[j].Index()] == b[visit[j].Index()]
      ensures Contested(next, visit[j], b[visit[j].Index()].value)
    {
      ContestedStays(cur, next, visit[j], b[visit[j].Index()].value);
    }
  }

  /** Emptying cells other than `q` keeps `q` contested. */
  lemma ContestedStays(a: Board, c: Board, q: Pos, v: Value)
    requires q.InRange() && Contested(a, q, v)
    requires forall i :: 0 <= i < CellCount ==> c[i] == a[i] || c[i].value == Empty
    ensures Contested(c, q, v)
  {
    var w: Value :| 1 <= w <= 9 && w != v && IsValueValidAt(Cleared(a, q), q.col, q.row, w);
    AcceptedStaysAccepted(Cleared(a, q), Cleared(c, q), q, w);
  }

  /** Emptying cells never withdraws a value the placement check accepted. */
  lemma AcceptedStaysAccepted(a: Board, c: Board, p: Pos, w: Value)
    requires p.InRange() && IsValueValidAt(a, p.col, p.row, w)
    requires forall i :: 0 <= i < CellCount ==> c[i] == a[i] || c[i].value == Empty
    ensures IsValueValidAt(c, p.col, p.row, w)
  {
    IsValueValidAtMeaning(a, p.col, p.row, w);
    IsValueValidAtMeaning(c, p.col, p.row, w);
  }

  /** Every cell of `b'` is the cell of `b`, or a non-Free cell of `b` emptied. */
  ghost predicate EmptiedFrom(b: Board, b': Board) {
    forall q: Pos :: q.InRange() ==>
      b'[q.Index()] == b[q.Index()] || (b[q.Index()].IsSolved() && b'[q.Index()] == Cell(q, Empty, Free))
  }

  /** A step of ReverseSolve at a non-Free cell of the original board keeps EmptiedFrom. */
  lemma ReverseStepEmpties(b: Board, cur: Board, p: Pos)
    requires EmptiedFrom(b, cur) && p in GetSolvedCells(b)
    ensures p.InRange() && EmptiedFrom(b, ReverseStep(cur, p))
  {
    assert GetCell(b, p.col, p.row) == b[p.Index()];
  }

  /** Emptying cells never touches a cell that is still non-Free. */
  lemma EmptiedFromExtends(b: Board, b': Board)
    requires EmptiedFrom(b, b')
    ensures Extends(b', b)
  {
    forall i | 0 <= i < CellCount && b'[i].IsSolved() ensures b[i] == b'[i] {
      IndexBijection(PosOf(i), i);
    }
  }

  // ---------------------------------------------------------------------------
  // The solve action
  // ---------------------------------------------------------------------------

  /**
   * The solve action of the console program: the elimination loop first, and the
   * backtracking search from its result when that does not finish. The result board starts
   * as an empty board and receives the loop's board on success, or whatever the search
   * stored. `shuffle` stands for the search's random value orders. The ghost result
   * `eliminated` names the board the loop ended with, which the search starts from.
   */
  method Solve(b: Board, shuffle: int -> seq<Value>, steps: int)
    returns (solved: bool, result: Board, steps': int, ghost eliminated: Board)
    requires forall k :: IsValueOrder(shuffle(k))
    ensures solved <==> IsBoardSolved(result)
    ensures solved ==> Extends(b, result)
    ensures SolvedInOnePass(b) ==> solved && result == FindByElimination(b).1
    ensures Extends(b, eliminated)
    ensures exists n :: RanPasses(FindByElimination, IsBoardSolved, b, eliminated, n)
    ensures IsBoardSolved(eliminated) ==> solved && result == eliminated
    ensures !IsBoardSolved(eliminated) ==>
      && IsStuck(eliminated)
      && (!solved ==> result == LastWritten(GiveUpBoard(eliminated)))
      && (solved ==> Extends(eliminated, result))
    ensures steps' >= steps
  {
    var done, e;
    done, e, steps' := SolveBoardByElimination(b, steps);
    eliminated := e;
    assert RanPasses(FindByElimination, IsBoardSolved, b, e, steps' - steps + (if done then 0 else 1));
    if done {
      solved, result := true, e;
    } else {
      solved, result, steps' := SearchInto(e, shuffle, steps');
      if solved {
        ExtendsTransitive(b, e, result);
      }
    }
  }


  /** The board the program's target holds after the search wrote `written`: it starts empty. */
  function LastWritten(written: Option<Board>): Board {
    if written.Some? then written.value else EmptyBoard()
  }

  /**
   * `SolveBoardByRecursion(board, &target, steps)` where `target` starts as an empty board:
   * afterwards `target` holds the last board the search stored, if any.
   */
  method SearchInto(board: Board, shuffle: int -> seq<Value>, steps: int) returns (solved: bool, target: Board, steps': int)
    requires forall k :: IsValueOrder(shuffle(k))
    ensures solved <==> IsBoardSolved(target)
    ensures solved ==> Extends(board, target)
    ensures !solved ==> target == LastWritten(GiveUpBoard(board))
    ensures steps' >= steps
  {
    var written;
    EmptyBoardIsNotSolved();
    solved, written, steps' := SolveBoardByRecursion(board, shuffle, steps);
    target := LastWritten(written);
  }

  /** The empty board fails the whole-board check. */
  lemma EmptyBoardIsNotSolved()
    ensures !IsBoardSolved(EmptyBoard())
  {
    var e: Board := EmptyBoard();
    assert e[0].value == Empty;
    if IsBoardSolved(e) {
      SolvedBoardIsFilled(e);
    }
  }
}
