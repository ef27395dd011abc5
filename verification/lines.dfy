/**
 * Lines of text as the program reads and writes them: std::getline's
 * splitting at '\n', std::endl's terminating newline, and the two
 * character filters the board reader applies to the lines it gets.
 */
module Lines {
  /** Where the first line of `s` ends: the first '\n', or the end of `s`. */
  function FirstNewline(s: string): (n: nat)
    ensures n <= |s|
    ensures n < |s| ==> s[n] == '\n'
    ensures forall i :: 0 <= i < n ==> s[i] != '\n'
    decreases |s|
  {
    if |s| == 0 || s[0] == '\n' then 0 else 1 + FirstNewline(s[1..])
  }

  /**
   * The lines std::getline extracts one after another: each ends at a '\n',
   * which is dropped; a last line without one is still extracted, and
   * nothing follows a final '\n'.
   */
  function SplitLines(text: string): (lines: seq<string>)
    ensures forall k :: 0 <= k < |lines| ==> '\n' !in lines[k]
    decreases |text|
  {
    if |text| == 0 then []
    else
      var n := FirstNewline(text);
      [text[..n]] + (if n == |text| then [] else SplitLines(text[n + 1..]))
  }

  /** Lines each written followed by std::endl. */
  function Terminated(lines: seq<string>): (text: string)
    decreases |lines|
  {
    if |lines| == 0 then "" else lines[0] + "\n" + Terminated(lines[1..])
  }

  /** Reading back lines that were each written with a newline gives exactly those lines. */
  lemma {:induction false} SplitTerminated(lines: seq<string>)
    requires forall k :: 0 <= k < |lines| ==> '\n' !in lines[k]
    ensures SplitLines(Terminated(lines)) == lines
    decreases |lines|
  {
    if |lines| > 0 {
      var text := Terminated(lines);
      var l := lines[0];
      assert text == l + ("\n" + Terminated(lines[1..]));
      FirstNewlineAt(text, l);
      assert text[..|l|] == l;
      assert text[|l| + 1..] == Terminated(lines[1..]);
      SplitTerminated(lines[1..]);
    }
  }

  /** A text that starts with a line and a newline has its first line end right there. */
  lemma FirstNewlineAt(text: string, l: string)
    requires '\n' !in l
    requires |text| > |l| && text[..|l|] == l && text[|l|] == '\n'
    ensures FirstNewline(text) == |l|
  {
    assert forall i :: 0 <= i < |l| ==> text[i] == l[i] && text[i] != '\n';
  }

  /** Writing one more line appends it and its newline. */
  lemma {:induction false} TerminatedAppend(lines: seq<string>, l: string)
    ensures Terminated(lines + [l]) == Terminated(lines) + l + "\n"
    decreases |lines|
  {
    if |lines| > 0 {
      assert (lines + [l])[1..] == lines[1..] + [l];
      TerminatedAppend(lines[1..], l);
    }
  }

  /** Lines the reader passes over: empty ones and ones starting with '+' or '-'. */
  predicate IsSkipped(l: string) {
    l == "" || l[0] == '+' || l[0] == '-'
  }

  /** The lines the reader treats as board rows, in order. */
  function ContentRows(lines: seq<string>): (rows: seq<string>)
    ensures |rows| <= |lines|
    ensures forall k :: 0 <= k < |rows| ==> !IsSkipped(rows[k])
    decreases |lines|
  {
    if |lines| == 0 then []
    else (if IsSkipped(lines[0]) then [] else [lines[0]]) + ContentRows(lines[1..])
  }

  /** Lines that are all skipped leave no rows; lines that are all content rows are kept whole. */
  lemma {:induction false} ContentRowsUniform(lines: seq<string>)
    ensures (forall k :: 0 <= k < |lines| ==> IsSkipped(lines[k])) ==> ContentRows(lines) == []
    ensures (forall k :: 0 <= k < |lines| ==> !IsSkipped(lines[k])) ==> ContentRows(lines) == lines
    decreases |lines|
  {
    if |lines| > 0 {
      ContentRowsUniform(lines[1..]);
      assert lines == [lines[0]] + lines[1..];
    }
  }

  /** The characters of a row the reader takes as cells: every one but '|'. */
  function CellChars(l: string): (cs: string)
    ensures |cs| <= |l| && '|' !in cs
    decreases |l|
  {
    if |l| == 0 then ""
    else (if l[0] == '|' then "" else [l[0]]) + CellChars(l[1..])
  }

  function Min(a: int, b: int): int {
    if a <= b then a else b
  }

  lemma {:induction false} ContentRowsAppend(a: seq<string>, c: seq<string>)
    ensures ContentRows(a + c) == ContentRows(a) + ContentRows(c)
    decreases |a|
  {
    if |a| == 0 {
      assert a + c == c;
    } else {
      assert (a + c)[0] == a[0] && (a + c)[1..] == a[1..] + c;
      ContentRowsAppend(a[1..], c);
      var h := if IsSkipped(a[0]) then [] else [a[0]];
      assert ContentRows(a + c) == h + (ContentRows(a[1..]) + ContentRows(c));
    }
  }

  lemma {:induction false} CellCharsAppend(a: string, c: string)
    ensures CellChars(a + c) == CellChars(a) + CellChars(c)
    decreases |a|
  {
    if |a| == 0 {
      assert a + c == c;
    } else {
      assert (a + c)[0] == a[0] && (a + c)[1..] == a[1..] + c;
      CellCharsAppend(a[1..], c);
      var h := if a[0] == '|' then "" else [a[0]];
      assert CellChars(a + c) == h + (CellChars(a[1..]) + CellChars(c));
    }
  }

  /** A line without '|' is all cell characters. */
  lemma {:induction false} CellCharsPlain(s: string)
    requires '|' !in s
    ensures CellChars(s) == s
    decreases |s|
  {
    if |s| > 0 {
      assert s[1..] == s[1..] && forall i :: 1 <= i < |s| ==> s[i] == s[1..][i - 1];
      CellCharsPlain(s[1..]);
    }
  }

  /** Nine characters in three bands of three, with '|' between the bands. */
  function Banded(t: string): string
    requires |t| == 9
  {
    t[..3] + ("|" + (t[3..6] + ("|" + t[6..])))
  }

  /** Characters other than '|' in front of a line are all taken as cells. */
  lemma PlainPrefix(x: string, y: string)
    requires '|' !in x
    ensures CellChars(x + y) == x + CellChars(y)
  {
    CellCharsAppend(x, y);
    CellCharsPlain(x);
  }

  /** A '|' in front of a line is passed over. */
  lemma BarPrefix(y: string)
    ensures CellChars("|" + y) == CellChars(y)
  {
    assert ("|" + y)[0] == '|' && ("|" + y)[1..] == y;
  }

  /** The reader recovers the nine characters of a banded row, whatever they are besides '|'. */
  lemma BandedCells(t: string)
    requires |t| == 9 && '|' !in t
    ensures CellChars(Banded(t)) == t
  {
    SlicesPlain(t);
    BandsCells(t[..3], t[3..6], t[6..]);
    assert t[..3] + (t[3..6] + t[6..]) == t;
  }

  /** A character that is neither '|' nor among the nine is not in their banded form either. */
  lemma BandedWithout(t: string, ch: char)
    requires |t| == 9 && ch != '|' && ch !in t
    ensures ch !in Banded(t)
  {
    assert forall i :: 0 <= i < 3 ==> t[..3][i] == t[i] && t[3..6][i] == t[i + 3] && t[6..][i] == t[i + 6];
    assert ch !in t[..3] && ch !in t[3..6] && ch !in t[6..];
  }

  /** The three bands of a line without '|' have none either. */
  lemma SlicesPlain(t: string)
    requires |t| == 9 && '|' !in t
    ensures '|' !in t[..3] && '|' !in t[3..6] && '|' !in t[6..]
  {
    assert forall i :: 0 <= i < 3 ==> t[..3][i] == t[i] && t[3..6][i] == t[i + 3] && t[6..][i] == t[i + 6];
  }

  /** Three bands joined by '|' read back as the bands laid end to end. */
  lemma BandsCells(a: string, b: string, c: string)
    requires '|' !in a && '|' !in b && '|' !in c
    ensures CellChars(a + ("|" + (b + ("|" + c)))) == a + (b + c)
  {
    PlainPrefix(a, "|" + (b + ("|" + c)));
    BarPrefix(b + ("|" + c));
    PlainPrefix(b, "|" + c);
    BarPrefix(c);
    CellCharsPlain(c);
  }


}
