/** What a text of characters shows on the screen (kernel/console.c, lines 36-90), in the codes
    and colours of the video memory: 0x07 for grey on black, 0x0F for white on black. */
module Screen {
  import opened Ctype
  import opened Number
  import opened Parse
  import opened Printf
  import opened Console
  import opened Layout

  /** A character in grey on black. */
  function Grey(c: char): Cell {
    0x0700 | ((c as int % 256) as bv16)
  }

  const BACKSPACE_CHAR: char := 8 as char

  lemma GreyBits(x: bv16)
    requires x < 256
    ensures ((0 as bv16) << 12) | ((7 as bv16) << 8) | x == 0x0700 | x
  {
  }

  lemma CellOfChar(c: char)
    ensures CellOf(ByteOf(c)) == Grey(c)
  {
    ByteBits(c as int % 256);
    GreyBits((c as int % 256) as bv16);
  }

  lemma FixedCells()
    ensures ConsoleEntry(0, GREY, BLACK) == 0x0700 && ConsoleEntry(0, WHITE, BLACK) == 0x0F00
    ensures ConsoleEntry(32, WHITE, BLACK) == 0x0F20
  {
  }

  // ---------- one character ----------

  /** The screen: its cells, and the position on it. */
  datatype Shown = Shown(cells: seq<Cell>, pos: int)

  // What the end of a roll shows.
  function ScreenOf(r: Roll): Shown
    requires WellFormed(r)
  {
    Shown(r.cells[Top(r)..], r.cursor - Top(r))
  }

  /** A newline goes to the beginning of the next row, a carriage return to that of the same
      one, a tab eight positions on, a backspace wipes out the character before the position,
      and any other character is shown. */
  function Put(s: Shown, c: char): Shown
    requires 0 <= s.pos < |s.cells| && c as int < 256
  {
    if c == '\n' then s.(pos := (s.pos / 80 + 1) * 80)
    else if c == '\r' then s.(pos := s.pos / 80 * 80)
    else if c == '\t' then s.(pos := s.pos + 8)
    else if c == BACKSPACE_CHAR then
      if s.pos == 0 then s else Shown(s.cells[s.pos - 1 := 0x0F20], s.pos - 1)
    else Shown(s.cells[s.pos := Grey(c)], s.pos + 1)
  }

  /** Behind the last of the 2000 cells the screen scrolls by one row of 80, and the new row
      is blank. */
  function Scrolled(s: Shown): Shown
    requires |s.cells| == 2000
  {
    if s.pos < 2000 then s else Shown(s.cells[80..] + seq(80, i => 0x0F00), s.pos - 80)
  }

  /** What each character does to the screen. */
  lemma TypesChar(r: Roll, c: char)
    requires WellFormed(r) && c as int < 256
    ensures ScreenOf(Typed(r, ByteOf(c))) == Scrolled(Put(ScreenOf(r), c))
  {
    var s, b := ScreenOf(r), ByteOf(c);
    assert b == c as int;
    OnScreen(r, b, s.cells, s.pos);
    Window(r, b);
    CellOfChar(c);
    FixedCells();
    hide *;
  }

  // A char of C has eight bits.
  predicate EightBits(t: string) {
    forall k: nat | k < |t| :: t[k] as int < 256
  }

  predicate OnScreenAt(s: Shown) {
    |s.cells| == 2000 && 0 <= s.pos < 2000
  }

  /** What a text does, one character after the other. */
  function PutText(s: Shown, t: string): (s': Shown)
    requires OnScreenAt(s) && EightBits(t)
    ensures OnScreenAt(s')
    decreases |t|
  {
    if t == "" then s else
      Scrolled(Put(PutText(s, t[..|t| - 1]), t[|t| - 1]))
  }

  /** Any text, typed on any screen. */
  lemma {:induction false} TypesText(r: Roll, t: string)
    requires WellFormed(r) && EightBits(t)
    ensures OnScreenAt(ScreenOf(r)) && ScreenOf(TypedAll(r, Bytes(t))) == PutText(ScreenOf(r), t)
    decreases |t|
  {
    if t == "" {
      assert TypedAll(r, Bytes(t)) == r;
    } else {
      var n := |t| - 1;
      assert t[..n + 1] == t;
      TypesText(r, t[..n]);
      TypedNext(r, t, n);
      TypesChar(TypedAll(r, Bytes(t[..n])), t[n]);
      hide Typed, TypedAll, Bytes, Put, Scrolled, ScreenOf;
    }
  }

  // ---------- a text on a cleared screen ----------

  /** Characters that do not go back. */
  predicate Forward(c: char) {
    c as int < 256 && c != '\r' && c != BACKSPACE_CHAR
  }

  predicate Visible(c: char) {
    Forward(c) && c != '\n' && c != '\t'
  }

  /** The position behind a text that is typed from position 0 on. */
  function Position(t: string): nat
    decreases |t|
  {
    if t == "" then 0 else
      var p, c := Position(t[..|t| - 1]), t[|t| - 1];
      if c == '\n' then (p / 80 + 1) * 80 else if c == '\t' then p + 8 else p + 1
  }

  // Visible character k stands at p.
  ghost predicate StandsAt(t: string, k: nat, p: nat) {
    k < |t| && Visible(t[k]) && Position(t[..k]) == p
  }

  /** A mark for each visible character in its place, and none elsewhere. */
  ghost predicate Inked(t: string, ink: seq<Mark>) {
    && |ink| == Position(t)
    && (forall k: nat, p: nat | StandsAt(t, k, p) :: p < |ink| && ink[p] == Some(ByteOf(t[k])))
    && forall p: nat | p < |ink| && ink[p].Some? :: exists k: nat :: StandsAt(t, k, p)
  }

  lemma StandsBefore(t: string, c: char, k: nat, p: nat)
    ensures StandsAt(t + [c], k, p) <==> StandsAt(t, k, p) || (k == |t| && Visible(c) && Position(t) == p)
  {
    if k <= |t| {
      assert (t + [c])[..k] == t[..k];
      assert t[..|t|] == t;
    }
  }

  lemma PositionMore(t: string, c: char)
    ensures Position(t + [c]) ==
      if c == '\n' then (Position(t) / 80 + 1) * 80 else if c == '\t' then Position(t) + 8 else Position(t) + 1
  {
    assert (t + [c])[..|t|] == t;
  }

  lemma AddedIs(n: nat, c: char)
    requires Forward(c)
    ensures var added := Added(n, ByteOf(c));
      && n + |added| == (if c == '\n' then (n / 80 + 1) * 80 else if c == '\t' then n + 8 else n + 1)
      && (if Visible(c) then added == [Some(ByteOf(c))] else forall i: nat | i < |added| :: added[i] == None)
  {
    assert ByteOf(c) == c as int;
  }

  lemma InkOfChar(t: string, c: char)
    requires Forward(c)
    ensures Ink(Bytes(t + [c])) == Ink(Bytes(t)) + Added(|Ink(Bytes(t))|, ByteOf(c))
  {
    var b := Bytes(t + [c]);
    assert b[..|b| - 1] == Bytes(t);
  }

  lemma InkedMore(t: string, c: char, ink: seq<Mark>)
    requires Inked(t, ink) && Forward(c)
    ensures Inked(t + [c], ink + Added(|ink|, ByteOf(c)))
  {
    var all, added := ink + Added(|ink|, ByteOf(c)), Added(|ink|, ByteOf(c));
    AddedIs(|ink|, c);
    PositionMore(t, c);
    hide Added, Position, StandsAt, Visible, Forward, ByteOf;
    forall k: nat, p: nat | StandsAt(t + [c], k, p)
      ensures p < |all| && all[p] == Some(ByteOf((t + [c])[k]))
    {
      StandsBefore(t, c, k, p);
    }
    forall p: nat | p < |all| && all[p].Some?
      ensures exists k: nat :: StandsAt(t + [c], k, p)
    {
      if p < |ink| {
        var k: nat :| StandsAt(t, k, p);
        StandsBefore(t, c, k, p);
      } else {
        assert all[p] == added[p - |ink|];
        StandsBefore(t, c, |t|, p);
      }
    }
  }

  lemma {:induction false} InkIs(t: string)
    requires forall c | c in t :: Forward(c)
    ensures Inked(t, Ink(Bytes(t)))
    decreases |t|
  {
    if t != "" {
      var front, c := t[..|t| - 1], t[|t| - 1];
      assert t == front + [c];
      InkIs(front);
      InkOfChar(front, c);
      hide Ink, Bytes, Inked, Forward;
      InkedMore(front, c, Ink(Bytes(front)));
    }
  }

  lemma ForwardAdvances(t: string)
    requires forall c | c in t :: Forward(c)
    ensures forall b | b in Bytes(t) :: Advancing(b)
  {
    forall b | b in Bytes(t)
      ensures Advancing(b)
    {
      var k :| 0 <= k < |t| && Bytes(t)[k] == b;
      assert t[k] in t;
    }
  }

  /** The roll holds the visible characters of t in their places, in grey on black, with no
      more rows than the cursor needs, and no other character. */
  ghost predicate Displays(r: Roll, t: string) {
    && r.cursor == Position(t) && |r.cells| == Max(25, Position(t) / 80 + 1) * 80
    && (forall k: nat, p: nat | StandsAt(t, k, p) :: p < |r.cells| && r.cells[p] == Grey(t[k]))
    && (forall p: nat | p < |r.cells| && !(exists k: nat :: StandsAt(t, k, p)) ::
          r.cells[p] == if p < 2000 then 0x0700 else 0x0F00)
  }

  lemma ComesOut(r: Roll, ink: seq<Mark>, t: string)
    requires Shows(r, ink) && Inked(t, ink)
    ensures Displays(r, t)
  {
    FixedCells();
    hide Position, ByteOf, ConsoleEntry, Grey;
    RowsFor(|ink|, 1);
    forall k: nat, p: nat | StandsAt(t, k, p)
      ensures p < |r.cells| && r.cells[p] == Grey(t[k])
    {
      CellOfChar(t[k]);
      assert r.cells[p] == CellAt(ink, p);
    }
    forall p: nat | p < |r.cells| && !(exists k: nat :: StandsAt(t, k, p))
      ensures r.cells[p] == if p < 2000 then 0x0700 else 0x0F00
    {
      assert r.cells[p] == CellAt(ink, p);
    }
  }

  /** Whatever text without carriage returns and backspaces is typed on a cleared screen: each
      visible character stands at the position behind the text before it, in grey on black. */
  lemma TextOnScreen(t: string)
    requires forall c | c in t :: Forward(c)
    ensures Displays(TypedAll(Cleared(GREY, BLACK), Bytes(t)), t)
  {
    InkIs(t);
    ForwardAdvances(t);
    TypesAll(Bytes(t));
    hide *;
    ComesOut(TypedAll(Cleared(GREY, BLACK), Bytes(t)), Ink(Bytes(t)), t);
  }

  lemma {:induction false} PlainPosition(t: string)
    requires forall c | c in t :: Visible(c)
    ensures Position(t) == |t|
    decreases |t|
  {
    if t != "" {
      assert t[|t| - 1] in t;
      PlainPosition(t[..|t| - 1]);
    }
  }

  lemma PlainPlace(t: string, k: nat, p: nat)
    requires forall c | c in t :: Visible(c)
    ensures StandsAt(t, k, p) <==> k < |t| && p == k
  {
    if k < |t| {
      assert t[k] in t && forall c | c in t[..k] :: c in t;
      PlainPosition(t[..k]);
    }
  }

  // A text of visible characters that leaves the cursor on the first screen.
  lemma PlainText(r: Roll, t: string)
    requires WellFormed(r) && Displays(r, t) && |t| < 2000 && forall c | c in t :: Visible(c)
    ensures Top(r) == 0 && r.cursor == |t|
    ensures forall k: nat | k < 2000 :: r.cells[k] == if k < |t| then Grey(t[k]) else 0x0700
  {
    PlainPosition(t);
    hide Position, Grey, StandsAt, Visible;
    forall k: nat | k < 2000
      ensures r.cells[k] == if k < |t| then Grey(t[k]) else 0x0700
    {
      if k < |t| {
        PlainPlace(t, k, k);
      } else {
        forall j: nat
          ensures !StandsAt(t, j, k)
        {
          PlainPlace(t, j, k);
        }
      }
    }
  }

  /** printk on a cleared screen, of any text without carriage returns and backspaces: the
      roll displays its first 1023 characters, and the screen is the end of the roll. If all
      are visible ones, cell k is the code of character k in grey on black, and the cells
      behind them stay blank. */
  method PrintOnClearedScreen(con: Console, addr: nat, fmt: string, args: seq<Arg>) returns (count: nat)
    requires con.buffer.Length == BUFSIZE && CString(fmt)
    requires 0 < addr && addr + 1024 <= TWO_32 && addr + |Formatted(fmt, 0, args)| < TWO_32
    requires forall c | c in Formatted(fmt, 0, args) :: Forward(c) && c != NUL
    modifies con`pos, con`roll, con.buffer
    ensures var text := Formatted(fmt, 0, args);
      && con.Valid() && con.buffer == old(con.buffer) && count == (if |text| < 1023 then |text| else 1023)
      && Displays(con.roll, text[..count])
      && ((forall c | c in text :: Visible(c)) ==>
           && con.pos == count
           && forall k: nat | k < 2000 :: con.buffer[k] == if k < count then Grey(text[k]) else 0x0700)
  {
    ghost var text := Formatted(fmt, 0, args);
    con.ConsoleClear(GREY, BLACK);
    count := con.Printk(addr, fmt, args);
    ghost var kept := Kept(text);
    KeptWithoutNul(text);
    assert kept == text[..count];
    assert forall c | c in kept :: c in text;
    assert forall c | c in kept :: Forward(c);
    TextOnScreen(kept);
    hide Displays, TypedAll, Bytes, Forward, Visible, Grey, Formatted, Kept;
    if forall c | c in text :: Visible(c) {
      PlainText(con.roll, kept);
    }
  }
}
