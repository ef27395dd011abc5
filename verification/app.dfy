/**
 * The two composite actions of the console program (wmain in
 * sudoku_solver.cpp): generating a puzzle, and solving a board read from
 * text; plus how its two board encodings, the framed text and the
 * 81-character layout, relate.
 */
module App {
  import opened Cells
  import opened Board
  import opened Solver
  import opened Layout
  import opened Lines
  import opened TextBoard

  // ---------------------------------------------------------------------------
  // Generate
  // ---------------------------------------------------------------------------

  /**
   * The generate action: the search fills an empty board, then ReverseSolve
   * empties the cells whose value is still forced; every filled cell the puzzle keeps
   * would admit another digit if emptied. When the search does not
   * solve the program exits with status 1; `ok` is false then. `shuffle` stands
   * for the search's random value orders and `visit` for the random order in
   * which ReverseSolve visits the cells of the board it is given.
   */
  method Generate(shuffle: int -> seq<Value>, visit: Board -> seq<Pos>, steps: int)
    returns (ok: bool, solution: Board, puzzle: Board, steps': int)
    requires forall k :: IsValueOrder(shuffle(k))
    requires forall b: Board :: multiset(visit(b)) == multiset(GetSolvedCells(b))
    ensures ok ==> IsBoardSolved(solution)
    ensures ok ==> Extends(puzzle, solution)
    ensures ok ==> forall p: Pos :: p.InRange() ==>
      puzzle[p.Index()] == solution[p.Index()] || puzzle[p.Index()] == Cell(p, Empty, Free)
    ensures ok ==> forall q: Pos :: q.InRange() && solution[q.Index()].IsSolved() && puzzle[q.Index()] == solution[q.Index()] ==>
      Contested(puzzle, q, solution[q.Index()].value)
    ensures ok ==> AllInRange(visit(solution)) && puzzle == ReverseSteps(solution, visit(solution))
    ensures !ok ==> puzzle == solution == EmptyBoard()
    ensures steps' >= steps
  {
    var solved, written;
    solved, written, steps' := SolveBoardByRecursion(EmptyBoard(), shuffle, steps);
    if !solved {
      return false, EmptyBoard(), EmptyBoard(), steps';
    }
    solution := written.value;
    var done;
    done, puzzle := ReverseSolve(solution, visit(solution));
    ok := true;
  }

  // ---------------------------------------------------------------------------
  // Solve
  // ---------------------------------------------------------------------------

  /**
   * The solve action: the text is read into the program's board, which starts
   * empty; when reading fails the program exits with status 1 and `loaded` is
   * false. Otherwise the read board is kept as `unsolved` and handed to the
   * elimination loop and, if that does not finish, to the search; the ghost
   * result `eliminated` is the loop's board.
   */
  method SolveText(text: string, shuffle: int -> seq<Value>, steps: int)
    returns (loaded: bool, unsolved: Board, solved: bool, result: Board, steps': int, ghost eliminated: Board)
    requires forall k :: IsValueOrder(shuffle(k))
    ensures var lines := SplitLines(text);
      loaded <==> |lines| >= BoardSize && RowsComplete(ContentRows(lines), 0)
    ensures loaded ==> ReadRows(EmptyBoard(), unsolved, ContentRows(SplitLines(text)), 0)
    ensures !loaded ==> !solved && steps' == steps
    ensures solved <==> loaded && IsBoardSolved(result)
    ensures solved ==> Extends(unsolved, result)
    ensures loaded && SolvedInOnePass(unsolved) ==> solved && result == FindByElimination(unsolved).1
    ensures loaded ==> Extends(unsolved, eliminated)
    ensures loaded ==> exists n :: RanPasses(FindByElimination, IsBoardSolved, unsolved, eliminated, n)
    ensures loaded && IsBoardSolved(eliminated) ==> solved && result == eliminated
    ensures loaded && !IsBoardSolved(eliminated) ==>
      && IsStuck(eliminated)
      && (!solved ==> result == LastWritten(GiveUpBoard(eliminated)))
      && (solved ==> Extends(eliminated, result))
    ensures steps' >= steps
  {
    var r := LoadBoardText(EmptyBoard(), text);
    loaded, unsolved := r.0, r.1;
    if !loaded {
      EmptyBoardIsNotSolved();
      return false, unsolved, false, EmptyBoard(), steps, unsolved;
    }
    solved, result, steps', eliminated := Solve(unsolved, shuffle, steps);
  }

  // ---------------------------------------------------------------------------
  // The two encodings
  // ---------------------------------------------------------------------------

  /** The text writer and the layout writer lose the same information: reading either back gives the same board. */
  lemma TextAndLayoutAgree(b: Board, target: Board)
    ensures LoadBoardText(target, WriteBoardText(b)).0
    ensures LoadBoardFromStringLayout(target, GetBoardAsStringLayout(b)).0
    ensures LoadBoardText(target, WriteBoardText(b)).1 == LoadBoardFromStringLayout(target, GetBoardAsStringLayout(b)).1
  {
    var t := LoadBoardText(target, WriteBoardText(b)).1;
    var l := LoadBoardFromStringLayout(target, GetBoardAsStringLayout(b)).1;
    TextRoundTrip(b, target);
    BoardRoundTrip(b, target);
    forall i | 0 <= i < CellCount
      ensures t[i] == l[i]
    {
    }
  }

  /** The line check looks at values only. */
  lemma LineVerdictByValues(xs: seq<Cell>, ys: seq<Cell>)
    requires Values(xs) == Values(ys)
    ensures IsSolved(xs) <==> IsSolved(ys)
  {
    assert |xs| == |Values(xs)| == |ys|;
    if IsSolved(xs) {
      forall c | c in ys ensures c.value != Empty {
        var k :| 0 <= k < |ys| && ys[k] == c;
        assert xs[k] in xs;
        assert Values(xs)[k] == Values(ys)[k];
      }
    }
    if IsSolved(ys) {
      forall c | c in xs ensures c.value != Empty {
        var k :| 0 <= k < |xs| && xs[k] == c;
        assert ys[k] in ys;
        assert Values(xs)[k] == Values(ys)[k];
      }
    }
  }

  /** The whole-board check looks at values only. */
  lemma VerdictByValues(a: Board, b: Board)
    requires forall i :: 0 <= i < CellCount ==> a[i].value == b[i].value
    ensures IsBoardSolved(a) <==> IsBoardSolved(b)
  {
    forall col | 0 <= col < BoardSize
      ensures IsSolved(GetCol(a, col)) <==> IsSolved(GetCol(b, col))
    {
      assert Values(GetCol(a, col)) == Values(GetCol(b, col));
      LineVerdictByValues(GetCol(a, col), GetCol(b, col));
    }
    IsBoardSolvedChecksColumnsOnly(a);
    IsBoardSolvedChecksColumnsOnly(b);
  }

  /**
   * A solved board saved as text and read back by the solve action is solved
   * already, with every cell Fixed.
   */
  lemma SavedSolutionReloads(b: Board, target: Board)
    requires IsBoardSolved(b)
    ensures LoadBoardText(target, WriteBoardText(b)).0
    ensures IsBoardSolved(LoadBoardText(target, WriteBoardText(b)).1)
    ensures forall i :: 0 <= i < CellCount ==> LoadBoardText(target, WriteBoardText(b)).1[i].state == Fixed
  {
    TextRoundTrip(b, target);
    SolvedBoardIsFilled(b);
    VerdictByValues(b, LoadBoardText(target, WriteBoardText(b)).1);
  }
}
