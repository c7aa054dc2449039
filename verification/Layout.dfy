/** Where text ends up on the screen: the console of kernel/console.c (lines 36-70), typed
    on from a cleared screen with printable characters, newlines and tabs. */
module Layout {
  import opened Number
  import opened Console

  /** A position of the typeset text: a character, or nothing. */
  type Mark = Option<Byte>

  predicate Printable(c: Byte) {
    c != BACKSPACE && c != TAB && c != NEWLINE && c != RETURN
  }

  predicate Advancing(c: Byte) {
    Printable(c) || c == NEWLINE || c == TAB
  }

  function Nothing(n: nat): (s: seq<Mark>)
    ensures |s| == n && forall i: nat | i < n :: s[i] == None
  {
    seq(n, i => None)
  }

  // How far it is from position n to the next row.
  function Gap(n: nat): (k: nat)
    ensures 0 < k <= WIDTH
  {
    WIDTH - n % WIDTH
  }

  /** What c adds behind n positions: itself, a gap of eight, or a gap up to the next row. */
  function Added(n: nat, c: Byte): (s: seq<Mark>)
    ensures |s| > 0
  {
    if c == NEWLINE then Nothing(Gap(n))
    else if c == TAB then Nothing(8)
    else [Some(c)]
  }

  /** The typeset text of s. */
  function Ink(s: seq<Byte>): seq<Mark>
    decreases |s|
  {
    if s == [] then [] else
      var front := Ink(s[..|s| - 1]);
      front + Added(|front|, s[|s| - 1])
  }

  // What is on a position of the roll where nothing has been typed: the screen was cleared
  // in one colour, and new rows come in another.
  function Background(p: nat): Cell {
    ConsoleEntry(0, if p < BUFSIZE then GREY else WHITE, BLACK)
  }

  function CellAt(ink: seq<Mark>, p: nat): Cell {
    if p < |ink| && ink[p].Some? then CellOf(ink[p].value) else Background(p)
  }

  /** The roll holds exactly the typeset text, the cursor is behind it, and the roll has
      just the rows that takes, but a screen of them at least. */
  ghost predicate Shows(r: Roll, ink: seq<Mark>) {
    && r.cursor == |ink|
    && |r.cells| == Max(BUFSIZE, (|ink| / WIDTH + 1) * WIDTH)
    && forall p: nat | p < |r.cells| :: r.cells[p] == CellAt(ink, p)
  }

  lemma RowsFor(n: nat, k: nat)
    requires 0 < k <= WIDTH
    ensures var rows, more := (n / WIDTH + 1) * WIDTH, ((n + k) / WIDTH + 1) * WIDTH;
      n < rows && rows % WIDTH == 0 && more == if n + k >= rows then rows + WIDTH else rows
  {
  }

  lemma TypesOne(r: Roll, ink: seq<Mark>, c: Byte)
    requires WellFormed(r) && Shows(r, ink) && Advancing(c)
    ensures Shows(Typed(r, c), ink + Added(|ink|, c))
  {
    var added := Added(|ink|, c);
    var all, r' := ink + added, Typed(r, c);
    RowsFor(|ink|, |added|);
    TypedCells(r, c);
    assert |added| <= WIDTH && (Printable(c) ==> added == [Some(c)]) && CursorAfter(r, c) == |all|;
    forall p: nat | p < |r'.cells|
      ensures r'.cells[p] == CellAt(all, p)
    {
      MarkAt(ink, c, p);
      assert p < |r.cells| ==> r.cells[p] == CellAt(ink, p);
    }
  }

  // The cells after a character that does not go back.
  lemma TypedCells(r: Roll, c: Byte)
    requires WellFormed(r) && Advancing(c)
    ensures var r' := Typed(r, c);
      && r'.cursor == CursorAfter(r, c)
      && |r'.cells| == (if r'.cursor >= |r.cells| then |r.cells| + WIDTH else |r.cells|)
      && forall p: nat | p < |r'.cells| :: r'.cells[p] ==
           if p >= |r.cells| then ConsoleEntry(0, WHITE, BLACK)
           else if p == r.cursor && Printable(c) then CellOf(c) else r.cells[p]
  {
    hide ConsoleEntry, CursorAfter;
  }

  // What stands at p once c has been added.
  lemma MarkAt(ink: seq<Mark>, c: Byte, p: nat)
    requires Advancing(c)
    ensures CellAt(ink + Added(|ink|, c), p) ==
      if p == |ink| && Printable(c) then CellOf(c) else if p < |ink| then CellAt(ink, p) else Background(p)
  {
    hide ConsoleEntry;
  }

  /** Whatever is typed on a cleared screen, the roll holds the typeset text. */
  lemma {:induction false} TypesAll(s: seq<Byte>)
    requires forall c | c in s :: Advancing(c)
    ensures Shows(TypedAll(Cleared(GREY, BLACK), s), Ink(s))
    decreases |s|
  {
    if s == [] {
      assert TypedAll(Cleared(GREY, BLACK), s) == Cleared(GREY, BLACK);
    } else {
      var front := s[..|s| - 1];
      TypesAll(front);
      hide Shows, WellFormed, Typed, Added;
      TypesOne(TypedAll(Cleared(GREY, BLACK), front), Ink(front), s[|s| - 1]);
    }
  }

  // ---------- lines ----------

  predicate PrintableLine(line: seq<Byte>) {
    forall c | c in line :: Printable(c)
  }

  function Marks(line: seq<Byte>): (s: seq<Mark>)
    ensures |s| == |line| && forall i: nat | i < |s| :: s[i] == Some(line[i])
  {
    seq(|line|, i requires 0 <= i < |line| => Some(line[i]))
  }

  /** The rows of a line with its newline. */
  function RowsOf(line: seq<Byte>): nat {
    |line| / WIDTH + 1
  }

  function Rows(lines: seq<seq<Byte>>): nat
    decreases |lines|
  {
    if lines == [] then 0 else Rows(lines[..|lines| - 1]) + RowsOf(lines[|lines| - 1])
  }

  function Joined(lines: seq<seq<Byte>>): seq<Byte>
    decreases |lines|
  {
    if lines == [] then [] else Joined(lines[..|lines| - 1]) + lines[|lines| - 1] + [NEWLINE]
  }

  lemma InkOfOne(s: seq<Byte>, c: Byte)
    requires Printable(c)
    ensures Ink(s + [c]) == Ink(s) + [Some(c)]
  {
    assert (s + [c])[..|s|] == s;
  }

  lemma {:induction false} LineInk(s: seq<Byte>, line: seq<Byte>)
    requires PrintableLine(line)
    ensures Ink(s + line) == Ink(s) + Marks(line)
    decreases |line|
  {
    hide Ink;
    if line == [] {
      assert s + line == s && Ink(s) + Marks(line) == Ink(s);
    } else {
      var front, c := line[..|line| - 1], line[|line| - 1];
      LastOfLine(s, line);
      hide PrintableLine, Marks, Printable;
      LineInk(s, front);
      InkOfOne(s + front, c);
      OneMore(Ink(s), Marks(front), Some(c));
    }
  }

  lemma LastOfLine(s: seq<Byte>, line: seq<Byte>)
    requires PrintableLine(line) && line != []
    ensures var front, c := line[..|line| - 1], line[|line| - 1];
      && PrintableLine(front) && Printable(c)
      && s + line == s + front + [c] && Marks(line) == Marks(front) + [Some(c)]
  {
    assert line[|line| - 1] in line && forall d | d in line[..|line| - 1] :: d in line;
  }

  lemma OneMore(a: seq<Mark>, b: seq<Mark>, m: Mark)
    ensures a + (b + [m]) == a + b + [m]
  {
  }

  lemma WholeRows(n: nat, line: seq<Byte>)
    requires n % WIDTH == 0
    ensures n + |line| + Gap(n + |line|) == n + RowsOf(line) * WIDTH
  {
  }

  /** The line stands in the typeset text from position start on. */
  ghost predicate LineStands(ink: seq<Mark>, start: nat, line: seq<Byte>) {
    start + |line| <= |ink| && forall j: nat | j < |line| :: ink[start + j] == Some(line[j])
  }

  // A line on top of whole rows.
  lemma OneLine(s: seq<Byte>, line: seq<Byte>, start: nat)
    requires |Ink(s)| == start && start % WIDTH == 0 && PrintableLine(line)
    ensures var ink := Ink(s + line + [NEWLINE]);
      && |ink| == start + RowsOf(line) * WIDTH
      && Ink(s) <= ink && LineStands(ink, start, line)
  {
    WholeRows(start, line);
    hide Gap, RowsOf, Ink, PrintableLine, LineStands;
    InkOfLine(s, line, start);
    LineBetween(Ink(s), line, Gap(start + |line|), start);
  }

  lemma InkOfLine(s: seq<Byte>, line: seq<Byte>, start: nat)
    requires |Ink(s)| == start && PrintableLine(line)
    ensures Ink(s + line + [NEWLINE]) == Ink(s) + Marks(line) + Nothing(Gap(start + |line|))
  {
    hide Gap, Marks, Nothing, PrintableLine;
    LineInk(s, line);
    var all := s + line + [NEWLINE];
    assert all[..|all| - 1] == s + line && all[|all| - 1] == NEWLINE;
    assert |Ink(s + line)| == start + |line|;
    assert Ink(all) == Ink(s + line) + Added(|Ink(s + line)|, NEWLINE);
  }

  // A line behind whole rows and before a gap.
  lemma LineBetween(before: seq<Mark>, line: seq<Byte>, gap: nat, start: nat)
    requires start == |before|
    ensures var ink := before + Marks(line) + Nothing(gap);
      && |ink| == start + |line| + gap && before <= ink && LineStands(ink, start, line)
  {
    var marks := Marks(line);
    var ink := before + marks + Nothing(gap);
    forall j: nat | j < |line|
      ensures ink[start + j] == Some(line[j])
    {
      assert ink[start + j] == marks[j];
    }
  }

  /** Line i stands at the beginning of the row that follows the rows of the lines before it. */
  ghost predicate Placed(ink: seq<Mark>, lines: seq<seq<Byte>>, i: nat)
    requires i < |lines|
  {
    LineStands(ink, Rows(lines[..i]) * WIDTH, lines[i])
  }

  lemma PlacedAfter(lines: seq<seq<Byte>>, ink: seq<Mark>, more: seq<Mark>, i: nat)
    requires |lines| > 0 && i < |lines| - 1 && Placed(ink, lines[..|lines| - 1], i) && ink <= more
    ensures Placed(more, lines, i)
  {
    assert lines[..|lines| - 1][..i] == lines[..i];
  }

  lemma SubLines(lines: seq<seq<Byte>>)
    requires lines != [] && forall line | line in lines :: PrintableLine(line)
    ensures PrintableLine(lines[|lines| - 1]) && forall line | line in lines[..|lines| - 1] :: PrintableLine(line)
  {
    assert lines[|lines| - 1] in lines;
  }

  /** The typeset text of lines fills their rows, and every line is in its place. */
  ghost predicate AllPlaced(lines: seq<seq<Byte>>) {
    && |Ink(Joined(lines))| == Rows(lines) * WIDTH
    && forall i: nat | i < |lines| :: Placed(Ink(Joined(lines)), lines, i)
  }

  lemma OneLineMore(lines: seq<seq<Byte>>)
    requires lines != [] && PrintableLine(lines[|lines| - 1]) && AllPlaced(lines[..|lines| - 1])
    ensures AllPlaced(lines)
  {
    var front, last := lines[..|lines| - 1], lines[|lines| - 1];
    var start, before, ink := Rows(front) * WIDTH, Ink(Joined(front)), Ink(Joined(lines));
    RowsMore(lines);
    assert Joined(lines) == Joined(front) + last + [NEWLINE];
    assert |before| == start;
    hide Ink, Joined, Rows, RowsOf, PrintableLine, LineStands, AllPlaced;
    OneLine(Joined(front), last, start);
    PlacedToo(lines, before, ink, start);
  }

  // The last line is in its place, and the others stay in theirs.
  lemma PlacedToo(lines: seq<seq<Byte>>, before: seq<Mark>, ink: seq<Mark>, start: nat)
    requires lines != [] && AllPlaced(lines[..|lines| - 1]) && before == Ink(Joined(lines[..|lines| - 1]))
    requires ink == Ink(Joined(lines)) && before <= ink && |ink| == Rows(lines) * WIDTH
    requires start == Rows(lines[..|lines| - 1]) * WIDTH && LineStands(ink, start, lines[|lines| - 1])
    ensures AllPlaced(lines)
  {
    var n := |lines| - 1;
    hide Ink, Joined, Rows, LineStands;
    assert Placed(ink, lines, n);
    hide Placed;
    forall i: nat | i < |lines|
      ensures Placed(ink, lines, i)
    {
      if i < n {
        assert Placed(before, lines[..n], i);
        PlacedAfter(lines, before, ink, i);
      }
    }
    assert AllPlaced(lines);
  }

  lemma {:induction false} LinesInk(lines: seq<seq<Byte>>)
    requires forall line | line in lines :: PrintableLine(line)
    ensures AllPlaced(lines)
    decreases |lines|
  {
    if lines != [] {
      SubLines(lines);
      LinesInk(lines[..|lines| - 1]);
      OneLineMore(lines);
      hide AllPlaced;
    }
  }

  lemma RowsMore(lines: seq<seq<Byte>>)
    requires lines != []
    ensures var n := |lines| - 1;
      && Rows(lines) * WIDTH == Rows(lines[..n]) * WIDTH + RowsOf(lines[n]) * WIDTH
      && |lines[n]| <= RowsOf(lines[n]) * WIDTH && Rows(lines[..n]) * WIDTH % WIDTH == 0
  {
    var n := |lines| - 1;
    assert Rows(lines) == Rows(lines[..n]) + RowsOf(lines[n]);
    RowsHold(lines[n]);
    hide Rows, RowsOf;
    Distribute(Rows(lines[..n]), RowsOf(lines[n]));
  }

  lemma RowsHold(line: seq<Byte>)
    ensures |line| <= RowsOf(line) * WIDTH
  {
  }

  lemma Distribute(m: nat, n: nat)
    ensures (m + n) * WIDTH == m * WIDTH + n * WIDTH && m * WIDTH % WIDTH == 0
  {
  }

  lemma {:induction false} AdvancingLines(lines: seq<seq<Byte>>)
    requires forall line | line in lines :: PrintableLine(line)
    ensures forall c | c in Joined(lines) :: Advancing(c)
    decreases |lines|
  {
    if lines != [] {
      SubLines(lines);
      AdvancingLines(lines[..|lines| - 1]);
    }
  }

  /** Line i on the roll, at the beginning of the row that follows the rows before it. */
  ghost predicate OnRoll(r: Roll, lines: seq<seq<Byte>>, i: nat)
    requires i < |lines|
  {
    var start := Rows(lines[..i]) * WIDTH;
    start + |lines[i]| <= |r.cells| && forall j: nat | j < |lines[i]| :: r.cells[start + j] == CellOf(lines[i][j])
  }

  /** Lines typed on a cleared screen: a line of m characters takes m / 80 + 1 rows, its
      characters stand there in order, and the roll ends with the row of the cursor, so that
      the screen shows the last 25 rows. */
  lemma {:induction false} ScreenOfLines(lines: seq<seq<Byte>>)
    requires forall line | line in lines :: PrintableLine(line)
    ensures var r := TypedAll(Cleared(GREY, BLACK), Joined(lines));
      && r.cursor == Rows(lines) * WIDTH
      && |r.cells| == Max(HEIGHT, Rows(lines) + 1) * WIDTH
      && Top(r) == Max(0, Rows(lines) + 1 - HEIGHT) * WIDTH
      && forall i: nat | i < |lines| :: OnRoll(r, lines, i)
  {
    var r, ink := TypedAll(Cleared(GREY, BLACK), Joined(lines)), Ink(Joined(lines));
    AdvancingLines(lines);
    TypesAll(Joined(lines));
    LinesInk(lines);
    Sizes(r, ink, Rows(lines));
    hide *;
    forall i: nat | i < |lines|
      ensures OnRoll(r, lines, i)
    {
      ComesOnRoll(r, ink, lines, i);
    }
  }

  lemma Sizes(r: Roll, ink: seq<Mark>, rows: nat)
    requires Shows(r, ink) && |ink| == rows * WIDTH
    ensures r.cursor == rows * WIDTH && |r.cells| == Max(HEIGHT, rows + 1) * WIDTH
    ensures Top(r) == Max(0, rows + 1 - HEIGHT) * WIDTH
  {
  }

  lemma ComesOnRoll(r: Roll, ink: seq<Mark>, lines: seq<seq<Byte>>, i: nat)
    requires Shows(r, ink) && i < |lines| && Placed(ink, lines, i)
    ensures OnRoll(r, lines, i)
  {
    var start := Rows(lines[..i]) * WIDTH;
    RowsFor(|ink|, 1);
    forall j: nat | j < |lines[i]|
      ensures r.cells[start + j] == CellOf(lines[i][j])
    {
      assert ink[start + j] == Some(lines[i][j]);
      assert r.cells[start + j] == CellAt(ink, start + j);
    }
  }
}
