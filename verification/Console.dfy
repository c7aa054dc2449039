/** The text console: kernel/console.c, with the entries of include/console.h. The screen
    is the last 25 rows of a roll of paper that only ever grows. */
module Console {
  import opened Ctype
  import opened Number
  import opened Parse
  import opened Printf

  const WIDTH: nat := 80
  const HEIGHT: nat := 25
  const BUFSIZE: nat := 2000
  const LAST_LINE: nat := 1920

  type Byte = x: nat | x < 256
  type Cell = bv16

  const BLACK: Byte := 0
  const GREY: Byte := 7
  const WHITE: Byte := 15

  const BACKSPACE: Byte := 8
  const TAB: Byte := 9
  const NEWLINE: Byte := 10
  const RETURN: Byte := 13

  /** bg << 12 | fg << 8 | ch, of which a cell keeps the lower 16 bits. Colours above 15
      run into each other. */
  function ConsoleEntry(ch: Byte, fg: Byte, bg: Byte): Cell {
    ((bg as bv16) << 12) | ((fg as bv16) << 8) | (ch as bv16)
  }

  /** A cell shows its character in its two colours exactly if both are among the sixteen. */
  lemma EntryParts(ch: Byte, fg: Byte, bg: Byte)
    ensures var e := ConsoleEntry(ch, fg, bg);
      e & 0xFF == ch as bv16 && (e >> 8) & 0xF == fg as bv16 && e >> 12 == bg as bv16 <==> fg < 16 && bg < 16
  {
    ByteBits(ch);
    ByteBits(fg);
    ByteBits(bg);
    Parts(ch as bv16, fg as bv16, bg as bv16);
  }

  lemma ByteBits(x: Byte)
    ensures (x as bv16) < 256 && ((x as bv16) < 16 <==> x < 16)
  {
  }

  lemma Parts(c: bv16, f: bv16, b: bv16)
    requires c < 256
    ensures var e := (b << 12) | (f << 8) | c;
      e & 0xFF == c && (e >> 8) & 0xF == f && e >> 12 == b <==> f < 16 && b < 16
  {
  }

  // ---------- the roll ----------

  /** A roll of whole rows, at least a screen of them, and a cursor on the screen. */
  datatype Roll = Roll(cells: seq<Cell>, cursor: nat)

  // The screen is at the end of the roll.
  function Top(r: Roll): int {
    |r.cells| - BUFSIZE
  }

  predicate WellFormed(r: Roll) {
    |r.cells| % WIDTH == 0 && 0 <= Top(r) <= r.cursor < |r.cells|
  }

  function Blank(n: nat, c: Cell): (s: seq<Cell>)
    ensures |s| == n && forall i: nat | i < n :: s[i] == c
  {
    seq(n, i => c)
  }

  function CellOf(c: Byte): Cell {
    ConsoleEntry(c, GREY, BLACK)
  }

  // Where the cursor goes, before the roll is made long enough.
  function CursorAfter(r: Roll, c: Byte): nat
    requires WellFormed(r)
  {
    if c == NEWLINE then r.cursor + WIDTH - r.cursor % WIDTH
    else if c == RETURN then r.cursor - r.cursor % WIDTH
    else if c == TAB then r.cursor + 8
    else if c == BACKSPACE then if r.cursor > Top(r) then r.cursor - 1 else r.cursor
    else r.cursor + 1
  }

  function Written(r: Roll, c: Byte): (s: seq<Cell>)
    requires WellFormed(r)
    ensures |s| == |r.cells|
  {
    if c == NEWLINE || c == RETURN || c == TAB then r.cells
    else if c == BACKSPACE then
      if r.cursor > Top(r) then r.cells[r.cursor - 1 := ConsoleEntry(32, WHITE, BLACK)] else r.cells
    else r.cells[r.cursor := CellOf(c)]
  }

  const FRESH_ROW: seq<Cell> := Blank(WIDTH, ConsoleEntry(0, WHITE, BLACK))

  /** One character on the roll, which gets a new row when the cursor leaves the last one. */
  function Typed(r: Roll, c: Byte): (r': Roll)
    requires WellFormed(r)
    ensures WellFormed(r')
    ensures |r'.cells| == |r.cells| || |r'.cells| == |r.cells| + WIDTH
  {
    var cells, cursor := Written(r, c), CursorAfter(r, c);
    Roll(if cursor >= |cells| then cells + FRESH_ROW else cells, cursor)
  }

  function TypedAll(r: Roll, s: seq<Byte>): (r': Roll)
    requires WellFormed(r)
    ensures WellFormed(r')
    decreases |s|
  {
    if s == [] then r else Typed(TypedAll(r, s[..|s| - 1]), s[|s| - 1])
  }

  function Cleared(fg: Byte, bg: Byte): (r: Roll)
    ensures WellFormed(r)
  {
    Roll(Blank(BUFSIZE, ConsoleEntry(0, fg, bg)), 0)
  }

  // What a character does, in terms of the screen: its cells and the position on it. Rows
  // start at the same positions on the screen and on the roll.
  lemma OnScreen(r: Roll, c: Byte, screen: seq<Cell>, pos: nat)
    requires WellFormed(r) && screen == r.cells[Top(r)..] && pos == r.cursor - Top(r)
    ensures |screen| == BUFSIZE && pos < BUFSIZE
    ensures var shown, moved := Written(r, c)[Top(r)..], CursorAfter(r, c) - Top(r);
      if c == NEWLINE then shown == screen && moved == pos + WIDTH - (pos + WIDTH) % WIDTH
      else if c == RETURN then shown == screen && moved == pos - pos % WIDTH
      else if c == TAB then shown == screen && moved == pos + 8
      else if c == BACKSPACE then
        if pos > 0 then shown == screen[pos - 1 := ConsoleEntry(32, WHITE, BLACK)] && moved == pos - 1
        else shown == screen && moved == pos
      else shown == screen[pos := CellOf(c)] && moved == pos + 1
  {
    hide CellOf, ConsoleEntry;
  }

  /** What a character does to the end of the roll: the screen stays where it is, or moves
      down by one row. */
  lemma Window(r: Roll, c: Byte)
    requires WellFormed(r)
    ensures var r', moved, shown := Typed(r, c), CursorAfter(r, c) - Top(r), Written(r, c)[Top(r)..];
      && r'.cursor == CursorAfter(r, c)
      && Top(r') == (if moved >= BUFSIZE then Top(r) + WIDTH else Top(r))
      && r'.cells[Top(r')..] == if moved >= BUFSIZE then shown[WIDTH..] + FRESH_ROW else shown
  {
    var cells, top := Written(r, c), Top(r);
    if CursorAfter(r, c) >= |cells| {
      assert (cells + FRESH_ROW)[top + WIDTH..] == cells[top..][WIDTH..] + FRESH_ROW;
    }
  }

  /** A character scrolls by one row at most, and what has left the screen never changes. */
  lemma {:induction false} PaperStays(r: Roll, s: seq<Byte>)
    requires WellFormed(r)
    ensures var r' := TypedAll(r, s);
      && Top(r) <= Top(r') <= Top(r) + WIDTH * |s|
      && r'.cells[..Top(r)] == r.cells[..Top(r)]
    decreases |s|
  {
    if s != [] {
      var front := s[..|s| - 1];
      PaperStays(r, front);
      OneStays(TypedAll(r, front), s[|s| - 1]);
      hide Typed, WellFormed;
      assert TypedAll(r, s).cells[..Top(r)] == TypedAll(r, front).cells[..Top(r)];
    }
  }

  lemma OneStays(r: Roll, c: Byte)
    requires WellFormed(r)
    ensures var r' := Typed(r, c);
      && (Top(r') == Top(r) || Top(r') == Top(r) + WIDTH)
      && forall k: nat | k < Top(r) :: r'.cells[k] == r.cells[k]
  {
  }

  // ---------- characters of a text ----------

  function ByteOf(c: char): Byte {
    c as int % 256
  }

  function Bytes(s: string): (b: seq<Byte>)
    ensures |b| == |s|
  {
    seq(|s|, i requires 0 <= i < |s| => ByteOf(s[i]))
  }

  // What stands before the first NUL.
  function BeforeNul(s: string): string
    decreases |s|
  {
    if s == "" || s[0] == NUL then "" else [s[0]] + BeforeNul(s[1..])
  }

  /** What printk puts on the console: of the first 1023 characters those before a NUL. */
  function Kept(text: string): string {
    BeforeNul(if |text| < 1024 then text else text[..1023])
  }

  lemma {:induction false} BeforeNulIs(s: string, n: nat)
    requires n <= |s| && (n < |s| ==> s[n] == NUL) && forall k: nat | k < n :: s[k] != NUL
    ensures BeforeNul(s) == s[..n]
    decreases |s|
  {
    if n > 0 {
      assert forall k: nat | k < n - 1 :: s[1..][k] == s[k + 1];
      BeforeNulIs(s[1..], n - 1);
      assert s[..n] == [s[0]] + s[1..][..n - 1];
    }
  }

  // A buffer that holds the beginning of text and a NUL.
  lemma KeptIn(text: string, after: string)
    requires |after| == 1024
    requires var kept := if |text| < 1024 then |text| else 1023; after[..kept] == text[..kept] && after[kept] == NUL
    ensures NUL in after && BeforeNul(after) == Kept(text)
  {
    var s := text[..if |text| < 1024 then |text| else 1023];
    assert text[..|text|] == text;
    FirstNul(s);
    var n := |BeforeNul(s)|;
    assert forall k: nat | k < |s| :: after[k] == after[..|s|][k] == s[k];
    BeforeNulIs(after, n);
    assert after[..n] == s[..n];
  }

  lemma {:induction false} FirstNul(s: string)
    ensures var n := |BeforeNul(s)|;
      n <= |s| && BeforeNul(s) == s[..n] && (n < |s| ==> s[n] == NUL) && forall k: nat | k < n :: s[k] != NUL
    decreases |s|
  {
    if s != "" && s[0] != NUL {
      FirstNul(s[1..]);
      var n := |BeforeNul(s[1..])|;
      assert s[..n + 1] == [s[0]] + s[1..][..n];
      assert forall k: nat | k < n :: s[k + 1] == s[1..][k];
      assert forall k: nat | 0 < k < n + 1 :: s[k] == s[1..][k - 1];
    }
  }

  /** printk keeps the longest beginning of a text that has no NUL and at most 1023 characters. */
  lemma KeptIs(text: string)
    ensures var n := |Kept(text)|;
      && n <= |text| && n <= 1023 && Kept(text) == text[..n] && (forall k: nat | k < n :: text[k] != NUL)
      && (n == |text| || n == 1023 || text[n] == NUL)
  {
    var s := if |text| < 1024 then text else text[..1023];
    FirstNul(s);
    assert forall k: nat | k < |s| :: s[k] == text[k];
  }

  lemma TextBeforeNul(s: string)
    requires NUL in s
    ensures var text := BeforeNul(s);
      |text| < |s| && s[|text|] == NUL && forall k: nat | k < |text| :: text[k] == s[k] && s[k] != NUL
  {
    FirstNul(s);
  }

  lemma NothingTyped(r: Roll, s: string)
    requires WellFormed(r)
    ensures Bytes(s[..0]) == [] && TypedAll(r, []) == r
  {
  }

  lemma TypedNext(r: Roll, s: string, n: nat)
    requires WellFormed(r) && n < |s|
    ensures TypedAll(r, Bytes(s[..n + 1])) == Typed(TypedAll(r, Bytes(s[..n])), ByteOf(s[n]))
  {
    var b := Bytes(s[..n + 1]);
    assert b[..|b| - 1] == Bytes(s[..n]) && b[|b| - 1] == ByteOf(s[n]);
  }

  /** Of a text without NUL, printk shows and counts the first min(L, 1023) characters. */
  lemma KeptWithoutNul(text: string)
    requires NUL !in text
    ensures Kept(text) == text[..if |text| < 1023 then |text| else 1023]
  {
    BeforeNulIs(if |text| < 1024 then text else text[..1023], if |text| < 1023 then |text| else 1023);
    assert text[..|text|] == text;
  }

  // ---------- the console ----------

  class Console {
    var buffer: array<Cell>
    var pos: int
    ghost var roll: Roll

    /** The screen shows the end of the roll, and the position is that of the cursor there. */
    ghost predicate Valid()
      reads this, buffer
    {
      && buffer.Length == BUFSIZE
      && WellFormed(roll)
      && buffer[..] == roll.cells[Top(roll)..]
      && pos == roll.cursor - Top(roll)
    }

    constructor (video: array<Cell>)
      requires video.Length == BUFSIZE
      modifies video
      ensures Valid() && buffer == video && roll == Cleared(GREY, BLACK)
    {
      buffer, pos := video, 0;
      new;
      ConsoleClear(GREY, BLACK);
    }

    /** __console_clear */
    method ConsoleClear(fg: Byte, bg: Byte)
      requires buffer.Length == BUFSIZE
      modifies this`pos, this`roll, buffer
      ensures Valid() && buffer == old(buffer) && roll == Cleared(fg, bg)
      ensures pos == 0
    {
      pos := 0;
      for i := 0 to BUFSIZE
        invariant buffer == old(buffer) && pos == 0
        invariant forall k: nat | k < i :: buffer[k] == ConsoleEntry(0, fg, bg)
      {
        buffer[i] := ConsoleEntry(0, fg, bg);
      }
      roll := Cleared(fg, bg);
    }

    /** console_scroll_up: an ascending copy of overlapping ranges, then a blank last row. */
    method ConsoleScrollUp()
      requires buffer.Length == BUFSIZE
      modifies this`pos, buffer
      ensures buffer[..] == old(buffer[WIDTH..]) + FRESH_ROW
      ensures pos == old(pos) - WIDTH
    {
      for i := 0 to LAST_LINE
        invariant pos == old(pos)
        invariant forall k: nat | k < i :: buffer[k] == old(buffer[k + WIDTH])
        invariant forall k: nat | i <= k < BUFSIZE :: buffer[k] == old(buffer[k])
      {
        buffer[i] := buffer[i + WIDTH];
      }
      for i := 0 to WIDTH
        invariant pos == old(pos)
        invariant forall k: nat | k < LAST_LINE :: buffer[k] == old(buffer[k + WIDTH])
        invariant forall k: nat | LAST_LINE <= k < LAST_LINE + i :: buffer[k] == ConsoleEntry(0, WHITE, BLACK)
      {
        buffer[LAST_LINE + i] := ConsoleEntry(0, WHITE, BLACK);
      }
      pos := pos - WIDTH;
    }

    /** kputchar */
    method Kputchar(c: Byte)
      requires Valid()
      modifies this`pos, this`roll, buffer
      ensures Valid() && buffer == old(buffer) && roll == Typed(old(roll), c)
      ensures 0 <= pos < BUFSIZE
    {
      OnScreen(roll, c, buffer[..], pos);
      Window(roll, c);
      ghost var shown, moved := Written(roll, c)[Top(roll)..], CursorAfter(roll, c) - Top(roll);
      hide Typed, Written, CursorAfter, CellOf, WellFormed, ConsoleEntry;
      if c == NEWLINE {
        pos := pos + WIDTH;
        pos := pos - pos % WIDTH;
      } else if c == RETURN {
        pos := pos - pos % WIDTH;
      } else if c == TAB {
        pos := pos + 8;
      } else if c == BACKSPACE {
        if pos > 0 {
          pos := pos - 1;
          buffer[pos] := ConsoleEntry(32, WHITE, BLACK);
        }
      } else {
        buffer[pos] := CellOf(c);
        pos := pos + 1;
      }
      assert buffer[..] == shown && pos == moved;
      if pos >= BUFSIZE {
        ConsoleScrollUp();
      }
      roll := Typed(roll, c);
    }

    // One more character of text, behind the first i of them.
    method PutNext(buf: array<char>, i: nat, ghost text: string, ghost start: Roll)
      requires Valid() && i < buf.Length && i < |text| && buf[i] == text[i] && (buf as object) != buffer
      requires WellFormed(start) && roll == TypedAll(start, Bytes(text[..i]))
      modifies this`pos, this`roll, buffer
      ensures Valid() && buffer == old(buffer) && buf[..] == old(buf[..])
      ensures roll == TypedAll(start, Bytes(text[..i + 1]))
    {
      hide Valid, WellFormed, Typed, ByteOf, Bytes;
      Kputchar(ByteOf(buf[i]));
      TypedNext(start, text, i);
    }

    /** for (i = 0; i < sizeof(buf); i++) { if (!buf[i]) break; kputchar(buf[i]); } */
    method PutBuffer(buf: array<char>) returns (i: nat)
      requires Valid() && NUL in buf[..] && (buf as object) != buffer
      modifies this`pos, this`roll, buffer
      ensures Valid() && buffer == old(buffer)
      ensures var text := BeforeNul(old(buf[..])); i == |text| && roll == TypedAll(old(roll), Bytes(text))
    {
      ghost var all, start := buf[..], roll;
      ghost var text := BeforeNul(all);
      TextBeforeNul(all);
      NothingTyped(start, text);
      assert WellFormed(start) && text[..|text|] == text;
      hide *;
      i := 0;
      while i < buf.Length && buf[i] != NUL
        invariant i <= |text| && Valid() && buffer == old(buffer) && buf[..] == all
        invariant roll == TypedAll(start, Bytes(text[..i]))
      {
        assert buf[i] == all[i] && i < |text|;
        PutNext(buf, i, text, start);
        i := i + 1;
      }
      assert i < |all| ==> buf[i] == all[i];
      assert i == |text|;
    }

    /** printk, whose buffer of 1024 characters is at addr. */
    method Printk(addr: nat, fmt: string, args: seq<Arg>) returns (count: nat)
      requires Valid() && CString(fmt)
      requires 0 < addr && addr + 1024 <= TWO_32 && addr + |Formatted(fmt, 0, args)| < TWO_32
      modifies this`pos, this`roll, buffer
      ensures Valid() && buffer == old(buffer)
      ensures var text := Kept(Formatted(fmt, 0, args));
        count == |text| && roll == TypedAll(old(roll), Bytes(text))
    {
      var buf := new char[1024];
      ghost var text := Formatted(fmt, 0, args);
      var n := Vsnprintf(buf, addr, 1024, fmt, args);
      KeptIn(text, buf[..]);
      hide *;
      count := PutBuffer(buf);
    }
  }
}
