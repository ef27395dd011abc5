/**
 * The text form of a board that sudoku_solver.cpp writes to a file
 * (WriteBoardToTextFile) and reads back from a file or the clipboard
 * (LoadBoardState): nine rows of nine cell characters, '|' between the
 * 3-column bands and a "---+---+---" divider line between the 3-row bands.
 */
module TextBoard {
  import opened Cells
  import opened Board
  import opened Lines

  // ---------------------------------------------------------------------
  // The writer (WriteBoardToTextFile)
  // ---------------------------------------------------------------------

  const Divider: string := "---+---+---"

  /** The characters the writer puts for the cells of row `row`, left to right. */
  function RowChars(b: Board, row: nat): (t: string)
    requires row < BoardSize
    ensures |t| == BoardSize
    ensures forall k :: 0 <= k < BoardSize ==> t[k] == CellToCharacter(b[BoardSize * row + k])
    ensures forall k :: 0 <= k < BoardSize ==> t[k] != '|' && t[k] != '\n' && t[k] != '+' && t[k] != '-'
  {
    var cs := GetRow(b, row);
    seq(BoardSize, k requires 0 <= k < BoardSize => CellToCharacter(cs[k]))
  }

  /** One board row as text: three cell characters, '|', three more, '|', three more. */
  function RowText(b: Board, row: nat): string
    requires row < BoardSize
  {
    Banded(RowChars(b, row))
  }

  /** The text of every board row, top to bottom. */
  function RowTexts(b: Board): seq<string> {
    seq(BoardSize, r requires 0 <= r < BoardSize => RowText(b, r))
  }

  /** The writer's loop from row `line` on: a divider before rows 3 and 6, then the row. */
  function Framed(texts: seq<string>, line: nat): seq<string>
    requires line <= |texts|
    decreases |texts| - line
  {
    if line == |texts| then []
    else
      (if line > 0 && line % 3 == 0 then [Divider] else [])
      + [texts[line]] + Framed(texts, line + 1)
  }

  /** The whole file: the eleven lines, each ended by std::endl, then one more std::endl. */
  function WriteBoardText(b: Board): string
  {
    Terminated(Framed(RowTexts(b), 0)) + "\n"
  }

  // ---------------------------------------------------------------------
  // The reader (LoadBoardState)
  // ---------------------------------------------------------------------

  /**
   * The inner loop over one row's characters, from column `col`: '|' is
   * passed over, every other character is decoded into cell (col, row),
   * and the loop stops once nine cells are filled.  Returns how many
   * columns are filled and the board.
   */
  function ParseRow(b: Board, l: string, row: nat, col: nat): (r: (nat, Board))
    requires col < BoardSize
    ensures r.0 == Min(col + |CellChars(l)|, BoardSize)
    decreases |l|
  {
    if |l| == 0 then (col, b)
    else if l[0] == '|' then ParseRow(b, l[1..], row, col)
    else
      var b' := SetCell(b, col, row, CharacterToCell(l[0]));
      if col + 1 >= BoardSize then (col + 1, b')
      else ParseRow(b', l[1..], row, col + 1)
  }

  /**
   * The outer loop from the board row `row` on: skipped lines are passed
   * over, each other line fills one row, a row with fewer than nine cell
   * characters fails, and the loop stops once the row after the ninth has
   * been read.  A failure leaves the rows filled before it in place.
   */
  function ParseLines(b: Board, lines: seq<string>, row: nat): (r: (bool, Board))
    requires row <= BoardSize
    decreases |lines|
  {
    if |lines| == 0 then (true, b)
    else if IsSkipped(lines[0]) then ParseLines(b, lines[1..], row)
    else
      var (col, b') := ParseRow(b, lines[0], row, 0);
      if col < BoardSize then (false, b')
      else if row + 1 > BoardSize then (true, b')
      else ParseLines(b', lines[1..], row + 1)
  }

  /**
   * `after` is `before` with the characters `cs` decoded into row `row`,
   * columns `col` up to (not including) `upto`, and nothing else changed.
   */
  ghost predicate WroteRow(before: Board, after: Board, cs: string, row: nat, col: nat, upto: nat)
    requires col <= upto <= col + |cs|
  {
    forall i | 0 <= i < CellCount ::
      after[i] == if i / BoardSize == row && col <= i % BoardSize < upto
                  then CharacterToCell(cs[i % BoardSize - col]).(position := PosOf(i))
                  else before[i]
  }

  /** What the inner loop writes: the cell characters of the row, in order, from column `col`. */
  lemma {:induction false} ParseRowMeaning(b: Board, l: string, row: nat, col: nat)
    requires col < BoardSize
    ensures WroteRow(b, ParseRow(b, l, row, col).1, CellChars(l), row, col, ParseRow(b, l, row, col).0)
    decreases |l|
  {
    if |l| > 0 {
      if l[0] == '|' {
        ParseRowMeaning(b, l[1..], row, col);
        BarStep(b, l, row, col);
      } else {
        var b' := SetCell(b, col, row, CharacterToCell(l[0]));
        if col + 1 < BoardSize {
          ParseRowMeaning(b', l[1..], row, col + 1);
        }
        CellStep(b, l, row, col);
      }
    }
  }

  /** A '|' is passed over without writing. */
  lemma BarStep(b: Board, l: string, row: nat, col: nat)
    requires col < BoardSize && |l| > 0 && l[0] == '|'
    requires WroteRow(b, ParseRow(b, l[1..], row, col).1, CellChars(l[1..]), row, col, ParseRow(b, l[1..], row, col).0)
    ensures WroteRow(b, ParseRow(b, l, row, col).1, CellChars(l), row, col, ParseRow(b, l, row, col).0)
  {
    assert CellChars(l) == CellChars(l[1..]);
    assert ParseRow(b, l, row, col) == ParseRow(b, l[1..], row, col);
  }

  /** Any other character is decoded into column `col`, and the loop goes on from the next column. */
  lemma CellStep(b: Board, l: string, row: nat, col: nat)
    requires col < BoardSize && |l| > 0 && l[0] != '|'
    requires var b' := SetCell(b, col, row, CharacterToCell(l[0]));
      col + 1 < BoardSize ==>
        WroteRow(b', ParseRow(b', l[1..], row, col + 1).1, CellChars(l[1..]), row, col + 1, ParseRow(b', l[1..], row, col + 1).0)
    ensures WroteRow(b, ParseRow(b, l, row, col).1, CellChars(l), row, col, ParseRow(b, l, row, col).0)
  {
    var r := ParseRow(b, l, row, col);
    assert CellChars(l) == [l[0]] + CellChars(l[1..]);
    var b' := SetCell(b, col, row, CharacterToCell(l[0]));
    WriteOne(b, col, row, l[0]);
    if col + 1 < BoardSize {
      assert r == ParseRow(b', l[1..], row, col + 1);
      WroteRowCons(b, b', r.1, l[0], CellChars(l[1..]), row, col, r.0);
    } else {
      assert r == (col + 1, b');
      assert WroteRow(b, r.1, [l[0]], row, col, r.0);
      assert forall i :: 0 <= i < BoardSize - col ==> CellChars(l)[i] == [l[0]][i];
    }
  }

  /** Writing one character's cell at (col, row) is the one-column case of WroteRow. */
  lemma WriteOne(b: Board, col: nat, row: nat, ch: char)
    requires col < BoardSize
    ensures WroteRow(b, SetCell(b, col, row, CharacterToCell(ch)), [ch], row, col, col + 1)
  {
    var b' := SetCell(b, col, row, CharacterToCell(ch));
    forall i | 0 <= i < CellCount
      ensures b'[i] == if i / BoardSize == row && col <= i % BoardSize < col + 1
                       then CharacterToCell([ch][i % BoardSize - col]).(position := PosOf(i))
                       else b[i]
    {
      IndexBijection(Pos(col, row), i);
    }
  }

  /** One written column followed by a run of written columns is one longer run. */
  lemma WroteRowCons(b: Board, b': Board, b'': Board, ch: char, cs: string, row: nat, col: nat, upto: nat)
    requires col + 1 <= upto <= col + 1 + |cs|
    requires WroteRow(b, b', [ch], row, col, col + 1)
    requires WroteRow(b', b'', cs, row, col + 1, upto)
    ensures WroteRow(b, b'', [ch] + cs, row, col, upto)
  {
    forall i | 0 <= i < CellCount
      ensures b''[i] == if i / BoardSize == row && col <= i % BoardSize < upto
                        then CharacterToCell(([ch] + cs)[i % BoardSize - col]).(position := PosOf(i))
                        else b[i]
    {
      var c := i % BoardSize;
      if i / BoardSize == row && col + 1 <= c < upto {
        assert ([ch] + cs)[c - col] == cs[c - (col + 1)];
      } else if i / BoardSize == row && c == col {
        assert ([ch] + cs)[c - col] == ch;
      }
    }
  }

  /** Every content row the reader reaches, from board row `row` on, has nine cell characters. */
  predicate RowsComplete(rows: seq<string>, row: nat) {
    forall k :: 0 <= k < |rows| && row + k <= BoardSize ==> |CellChars(rows[k])| >= BoardSize
  }

  /** The cell in slot `i` after the content rows `rows` were read into board rows `row`, `row` + 1, ... */
  function ReadCell(b: Board, rows: seq<string>, row: nat, i: nat): Cell
    requires i < CellCount && RowsComplete(rows, row)
  {
    if row <= i / BoardSize < row + |rows|
    then CharacterToCell(CellChars(rows[i / BoardSize - row])[i % BoardSize]).(position := PosOf(i))
    else b[i]
  }

  /** `after` is `before` with the content rows `rows` read into board rows `row`, `row` + 1, ... */
  ghost predicate ReadRows(before: Board, after: Board, rows: seq<string>, row: nat)
    requires RowsComplete(rows, row)
  {
    forall i | 0 <= i < CellCount :: after[i] == ReadCell(before, rows, row, i)
  }

  /** The reader's result `r` for the content rows `rows` read from board row `row` on into `b`. */
  ghost predicate ReadAs(b: Board, rows: seq<string>, row: nat, r: (bool, Board)) {
    (r.0 <==> RowsComplete(rows, row)) && (r.0 ==> ReadRows(b, r.1, rows, row))
  }

  /** What the outer loop computes, stated through the content rows it reads. */
  lemma {:induction false} ParseLinesMeaning(b: Board, lines: seq<string>, row: nat)
    requires row <= BoardSize
    ensures ReadAs(b, ContentRows(lines), row, ParseLines(b, lines, row))
    decreases |lines|
  {
    if |lines| > 0 {
      if IsSkipped(lines[0]) {
        ParseLinesMeaning(b, lines[1..], row);
        SkippedLine(b, lines, row);
      } else {
        var (col, b') := ParseRow(b, lines[0], row, 0);
        if col >= BoardSize && row < BoardSize {
          ParseLinesMeaning(b', lines[1..], row + 1);
        }
        ContentLine(b, lines, row);
      }
    }
  }

  /** A skipped line changes neither the board nor the rows still to read. */
  lemma SkippedLine(b: Board, lines: seq<string>, row: nat)
    requires |lines| > 0 && IsSkipped(lines[0]) && row <= BoardSize
    requires ReadAs(b, ContentRows(lines[1..]), row, ParseLines(b, lines[1..], row))
    ensures ReadAs(b, ContentRows(lines), row, ParseLines(b, lines, row))
  {
    assert ContentRows(lines) == ContentRows(lines[1..]);
  }

  /** A content line is read as board row `row`; reading goes on from the next line and row. */
  lemma ContentLine(b: Board, lines: seq<string>, row: nat)
    requires |lines| > 0 && !IsSkipped(lines[0]) && row <= BoardSize
    requires var (col, b') := ParseRow(b, lines[0], row, 0);
      col >= BoardSize && row < BoardSize ==>
        ReadAs(b', ContentRows(lines[1..]), row + 1, ParseLines(b', lines[1..], row + 1))
    ensures ReadAs(b, ContentRows(lines), row, ParseLines(b, lines, row))
  {
    var rows := ContentRows(lines);
    assert rows == [lines[0]] + ContentRows(lines[1..]);
    assert rows[0] == lines[0] && rows[1..] == ContentRows(lines[1..]);
    var (col, b') := ParseRow(b, lines[0], row, 0);
    ParseRowMeaning(b, lines[0], row, 0);
    if col < BoardSize {
      assert row + 0 <= BoardSize && |CellChars(rows[0])| < BoardSize;
    } else if row == BoardSize {
      RowsCompleteAtLast(rows, row);
      assert ReadRows(b, b', rows, row);
    } else {
      RowsCompleteStep(rows, row);
      if RowsComplete(rows, row) {
        ReadRowsCons(b, b', ParseLines(b', lines[1..], row + 1).1, rows, row);
      }
    }
  }

  /** Reading the first content row, then the rest from the next board row, reads them all. */
  lemma ReadRowsCons(b: Board, b': Board, b'': Board, rows: seq<string>, row: nat)
    requires |rows| > 0 && row < BoardSize && RowsComplete(rows, row) && RowsComplete(rows[1..], row + 1)
    requires |CellChars(rows[0])| >= BoardSize
    requires WroteRow(b, b', CellChars(rows[0]), row, 0, BoardSize)
    requires ReadRows(b', b'', rows[1..], row + 1)
    ensures ReadRows(b, b'', rows, row)
  {
    forall i | 0 <= i < CellCount
      ensures b''[i] == ReadCell(b, rows, row, i)
    {
      var r := i / BoardSize;
      if row + 1 <= r < row + |rows| {
        assert rows[1..][r - (row + 1)] == rows[r - row];
      }
    }
  }

  /** Reading stops after board row 9, so only the first content row still counts there. */
  lemma RowsCompleteAtLast(rows: seq<string>, row: nat)
    requires |rows| > 0 && row == BoardSize && |CellChars(rows[0])| >= BoardSize
    ensures RowsComplete(rows, row)
  {
  }

  /** A row list is complete from `row` when its head is and its tail is from `row` + 1. */
  lemma RowsCompleteStep(rows: seq<string>, row: nat)
    requires |rows| > 0 && row <= BoardSize
    ensures RowsComplete(rows, row) <==> |CellChars(rows[0])| >= BoardSize && RowsComplete(rows[1..], row + 1)
  {
    if |CellChars(rows[0])| >= BoardSize && RowsComplete(rows[1..], row + 1) {
      forall k | 0 <= k < |rows| && row + k <= BoardSize
        ensures |CellChars(rows[k])| >= BoardSize
      {
        if k > 0 {
          assert rows[k] == rows[1..][k - 1];
        }
      }
    }
    if RowsComplete(rows, row) {
      forall k | 0 <= k < |rows[1..]| && row + 1 + k <= BoardSize
        ensures |CellChars(rows[1..][k])| >= BoardSize
      {
        assert rows[1..][k] == rows[k + 1];
      }
    }
  }

  /**
   * LoadBoardState after the lines are collected: fewer than nine lines
   * fail with the board untouched; otherwise the lines are read from
   * board row 0.
   */
  function LoadBoardState(b: Board, lines: seq<string>): (r: (bool, Board))
    ensures |lines| < BoardSize ==> r == (false, b)
    ensures r.0 <==> |lines| >= BoardSize && RowsComplete(ContentRows(lines), 0)
    ensures r.0 ==> ReadRows(b, r.1, ContentRows(lines), 0)
  {
    if |lines| < BoardSize then (false, b)
    else
      ParseLinesMeaning(b, lines, 0);
      ParseLines(b, lines, 0)
  }

  /**
   * The line count is checked before dividers and blank lines are dropped:
   * nine or more lines with no content row are accepted and write nothing.
   */
  lemma NoContentRowsLoads(b: Board, lines: seq<string>)
    requires |lines| >= BoardSize && forall k :: 0 <= k < |lines| ==> IsSkipped(lines[k])
    ensures LoadBoardState(b, lines) == (true, b)
  {
    ContentRowsUniform(lines);
    assert RowsComplete([], 0);
    var r := LoadBoardState(b, lines);
    assert r.0 && ReadRows(b, r.1, [], 0);
    forall i | 0 <= i < CellCount
      ensures r.1[i] == b[i]
    {
      assert r.1[i] == ReadCell(b, [], 0, i);
    }
    assert r.1 == b;
  }

  /**
   * The row counter stops the reader only once it passes nine, so a tenth
   * content row is still scanned, and the read fails when it is short.
   */
  lemma ShortTenthRowFails(b: Board, lines: seq<string>)
    requires |lines| > BoardSize && forall k :: 0 <= k < |lines| ==> !IsSkipped(lines[k])
    requires |CellChars(lines[BoardSize])| < BoardSize
    ensures !LoadBoardState(b, lines).0
  {
    ContentRowsUniform(lines);
  }

  /** Reading a whole text, as a file or the clipboard delivers it. */
  function LoadBoardText(b: Board, text: string): (bool, Board)
  {
    LoadBoardState(b, SplitLines(text))
  }

  // ---------------------------------------------------------------------
  // Writing a board and reading it back
  // ---------------------------------------------------------------------

  /** A written row is a content row for the reader, holds no newline, and reads back as its cells. */
  lemma RowTextShape(b: Board, row: nat)
    requires row < BoardSize
    ensures CellChars(RowText(b, row)) == RowChars(b, row)
    ensures !IsSkipped(RowText(b, row)) && '\n' !in RowText(b, row)
  {
    var t := RowChars(b, row);
    BandedCells(t);
    BandedWithout(t, '\n');
    assert Banded(t)[0] == t[0];
  }

  /** The reader finds exactly the framed lines' own rows, dividers being skipped. */
  lemma {:induction false} FramedContent(texts: seq<string>, line: nat)
    requires line <= |texts|
    requires forall k :: 0 <= k < |texts| ==> !IsSkipped(texts[k])
    ensures ContentRows(Framed(texts, line)) == texts[line..]
    decreases |texts| - line
  {
    if line < |texts| {
      var head: seq<string> := if line > 0 && line % 3 == 0 then [Divider] else [];
      var rest := Framed(texts, line + 1);
      FramedContent(texts, line + 1);
      assert Framed(texts, line) == head + ([texts[line]] + rest);
      ContentRowsAppend(head, [texts[line]] + rest);
      ContentRowsAppend([texts[line]], rest);
      assert ContentRows(head) == [];
      assert ContentRows([texts[line]]) == [texts[line]];
      assert texts[line..] == [texts[line]] + texts[line + 1..];
    }
  }

  /** Framing adds no line holding a newline. */
  lemma {:induction false} FramedSingle(texts: seq<string>, line: nat)
    requires line <= |texts|
    requires forall k :: 0 <= k < |texts| ==> '\n' !in texts[k]
    ensures forall k :: 0 <= k < |Framed(texts, line)| ==> '\n' !in Framed(texts, line)[k]
    decreases |texts| - line
  {
    if line < |texts| {
      var head: seq<string> := if line > 0 && line % 3 == 0 then [Divider] else [];
      FramedSingle(texts, line + 1);
      assert Framed(texts, line) == head + [texts[line]] + Framed(texts, line + 1);
    }
  }

  /** The rows the writer produces, as the reader sees them. */
  lemma RowTextsShape(b: Board)
    ensures |RowTexts(b)| == BoardSize
    ensures forall r :: 0 <= r < BoardSize ==>
      !IsSkipped(RowTexts(b)[r]) && '\n' !in RowTexts(b)[r] && CellChars(RowTexts(b)[r]) == RowChars(b, r)
  {
    forall r | 0 <= r < BoardSize
      ensures !IsSkipped(RowTexts(b)[r]) && '\n' !in RowTexts(b)[r] && CellChars(RowTexts(b)[r]) == RowChars(b, r)
    {
      RowTextShape(b, r);
    }
  }

  /** The writer's text is its lines, each with its newline, and then the empty line's newline. */
  lemma WrittenText(b: Board)
    ensures WriteBoardText(b) == Terminated(Framed(RowTexts(b), 0) + [""])
  {
    var lines := Framed(RowTexts(b), 0);
    TerminatedAppend(lines, "");
    assert Terminated(lines) + "" == Terminated(lines);
  }

  /** Splitting the writer's text gives its eleven lines and the empty line of the final newline. */
  lemma WrittenLines(b: Board)
    ensures SplitLines(WriteBoardText(b)) == Framed(RowTexts(b), 0) + [""]
  {
    var lines := Framed(RowTexts(b), 0);
    RowTextsShape(b);
    FramedSingle(RowTexts(b), 0);
    WrittenText(b);
    assert forall k :: 0 <= k < |lines + [""]| ==> '\n' !in (lines + [""])[k];
    SplitTerminated(lines + [""]);
  }

  /** The reader finds the nine written rows in the writer's text, in order. */
  lemma WrittenRows(b: Board)
    ensures ContentRows(SplitLines(WriteBoardText(b))) == RowTexts(b)
  {
    var lines := Framed(RowTexts(b), 0);
    WrittenLines(b);
    RowTextsShape(b);
    FramedContent(RowTexts(b), 0);
    ContentRowsAppend(lines, [""]);
    assert ContentRows([""]) == [];
    assert RowTexts(b)[0..] == RowTexts(b);
  }

  /**
   * Reading back what WriteBoardText wrote succeeds into any board and
   * restores every value; filled cells come back Fixed and empty ones Free.
   */
  lemma TextRoundTrip(b: Board, target: Board)
    ensures LoadBoardText(target, WriteBoardText(b)).0
    ensures forall i :: 0 <= i < CellCount ==>
      var c := LoadBoardText(target, WriteBoardText(b)).1[i];
      c.value == b[i].value && c.state == (if b[i].value == Empty then Free else Fixed)
  {
    var lines := SplitLines(WriteBoardText(b));
    WrittenLines(b);
    WrittenRows(b);
    RowTextsShape(b);
    var rows := ContentRows(lines);
    assert RowsComplete(rows, 0);
    forall i | 0 <= i < CellCount
      ensures ReadCell(target, rows, 0, i).value == b[i].value
      ensures ReadCell(target, rows, 0, i).state == (if b[i].value == Empty then Free else Fixed)
    {
      assert BoardSize * (i / BoardSize) + i % BoardSize == i;
      CharacterRoundTrip('0', b[i]);
    }
  }

}
