/** vsnprintf: lib/vsprintf.c, lines 109-116 and 231-457. A format is a string in memory
    that ends with NUL; positions in it count from its start. */
module Printf {
  import opened Ctype
  import opened Output
  import opened Number
  import opened Parse

  // ---------- arguments ----------

  /** An argument: an integer (or an address), or a string, which may be null. Reading an
      argument that is not there, or of the other kind, is undefined in C; here it gives
      zero or the null string. */
  datatype Arg = Num(v: int) | Str(s: string) | NullStr

  function NumAt(args: seq<Arg>): int {
    if args != [] && args[0].Num? then args[0].v else 0
  }

  function StrAt(args: seq<Arg>): string {
    if args != [] && args[0].Str? then args[0].s else "<NULL>"
  }

  function Rest(args: seq<Arg>): seq<Arg> {
    if args == [] then [] else args[1..]
  }

  function Unsigned(v: int, modulus: nat): int
    requires modulus > 0
  {
    v % modulus
  }

  function Signed(v: int, modulus: nat): int
    requires modulus > 0
  {
    ToSigned(v % modulus, modulus)
  }

  const TWO_16: nat := 0x1_0000

  /** The value that an integer conversion prints: the argument cut to the width that the
      qualifier names. A long has 32 bits, and %Zd does not extend the sign. */
  function Converted(qualifier: char, signed: bool, v: int): int64 {
    if qualifier == 'L' then Signed(v, TWO_64)
    else if qualifier == 'Z' then Unsigned(v, TWO_32)
    else if qualifier == 'h' then if signed then Signed(v, TWO_16) else Unsigned(v, TWO_16)
    else if signed then Signed(v, TWO_32) else Unsigned(v, TWO_32)
  }

  // ---------- the parts of a directive ----------

  predicate IsFlag(c: char) {
    c == '-' || c == '+' || c == ' ' || c == '#' || c == '0'
  }

  function WithFlag(f: Flags, c: char): Flags {
    if c == '-' then f.(left := true)
    else if c == '+' then f.(plus := true)
    else if c == ' ' then f.(space := true)
    else if c == '#' then f.(special := true)
    else f.(zeropad := true)
  }

  function FlagsAt(fmt: string, p: nat, f: Flags): (r: (Flags, nat))
    requires CString(fmt) && p < |fmt|
    ensures p <= r.1 < |fmt| && !IsFlag(fmt[r.1])
    decreases |fmt| - p
  {
    if IsFlag(fmt[p]) then FlagsAt(fmt, p + 1, WithFlag(f, fmt[p])) else (f, p)
  }

  function AtoiAt(fmt: string, p: nat, i: nat): (r: (nat, nat))
    requires CString(fmt) && p < |fmt|
    ensures p <= r.1 < |fmt|
    decreases |fmt| - p
  {
    if IsDigit(fmt[p]) then AtoiAt(fmt, p + 1, i * 10 + (fmt[p] as int - 48)) else (i, p)
  }

  predicate IsQualifier(c: char) {
    c == 'h' || c == 'l' || c == 'L' || c == 'Z'
  }

  /** A directive up to its conversion character, which is at p; args are the arguments
      that width and precision have left. NUL stands for "no qualifier". */
  datatype Directive = Directive(flags: Flags, width: int, precision: int, qualifier: char, p: nat, args: seq<Arg>)

  function WithWidth(fmt: string, p: nat, f: Flags, args: seq<Arg>): (d: Directive)
    requires CString(fmt) && p < |fmt|
    ensures p <= d.p < |fmt|
  {
    if IsDigit(fmt[p]) then
      var (w, q) := AtoiAt(fmt, p, 0);
      Directive(f, w, -1, NUL, q, args)
    else if fmt[p] == '*' then
      var w := Signed(NumAt(args), TWO_32);
      if w < 0 then Directive(f.(left := true), -w, -1, NUL, p + 1, Rest(args))
      else Directive(f, w, -1, NUL, p + 1, Rest(args))
    else
      Directive(f, -1, -1, NUL, p, args)
  }

  function WithPrecision(fmt: string, d: Directive): (r: Directive)
    requires CString(fmt) && d.p < |fmt|
    ensures d.p <= r.p < |fmt|
  {
    if fmt[d.p] != '.' then d
    else if IsDigit(fmt[d.p + 1]) then
      var (n, q) := AtoiAt(fmt, d.p + 1, 0);
      d.(precision := n, p := q)
    else if fmt[d.p + 1] == '*' then
      var n := Signed(NumAt(d.args), TWO_32);
      d.(precision := if n < 0 then 0 else n, p := d.p + 2, args := Rest(d.args))
    else
      d.(precision := 0, p := d.p + 1)
  }

  function WithQualifier(fmt: string, d: Directive): (r: Directive)
    requires CString(fmt) && d.p < |fmt|
    ensures d.p <= r.p < |fmt|
  {
    if !IsQualifier(fmt[d.p]) then d
    else if fmt[d.p] == 'l' && fmt[d.p + 1] == 'l' then d.(qualifier := 'L', p := d.p + 2)
    else d.(qualifier := fmt[d.p], p := d.p + 1)
  }

  /** The directive whose '%' is just before p. */
  function DirectiveAt(fmt: string, p: nat, args: seq<Arg>): (d: Directive)
    requires CString(fmt) && p < |fmt|
    ensures p <= d.p < |fmt|
  {
    var (f, q) := FlagsAt(fmt, p, NO_FLAGS);
    WithQualifier(fmt, WithPrecision(fmt, WithWidth(fmt, q, f, args)))
  }

  // ---------- the text of a directive ----------

  /** strnlen, where a string ends at its first NUL or with its last character. */
  function StrNLen(s: string, count: int): (n: nat)
    ensures n <= |s|
    decreases |s|
  {
    if count == 0 || s == "" || s[0] == NUL then 0 else 1 + StrNLen(s[1..], count - 1)
  }

  function StrText(s: string, d: Directive): string {
    var len := StrNLen(s, d.precision);
    Repeat(' ', if d.flags.left then 0 else d.width - len) + s[..len]
    + Repeat(' ', if d.flags.left then d.width - len else 0)
  }

  function CharText(v: int, d: Directive): string {
    Repeat(' ', if d.flags.left then 0 else d.width - 1) + [(v % 256) as char]
    + Repeat(' ', if d.flags.left then d.width - 1 else 0)
  }

  function PointerText(v: int, d: Directive): string {
    FieldText(Unsigned(v, TWO_32), 16, if d.width == -1 then 8 else d.width, d.precision,
              if d.width == -1 then d.flags.(zeropad := true) else d.flags)
  }

  predicate IsInteger(c: char) {
    c == 'o' || c == 'x' || c == 'X' || c == 'd' || c == 'i' || c == 'u'
  }

  function BaseOf(c: char): nat {
    if c == 'o' then 8 else if c == 'x' || c == 'X' then 16 else 10
  }

  function FlagsFor(c: char, f: Flags): Flags {
    f.(large := f.large || c == 'X', sign := f.sign || c == 'd' || c == 'i')
  }

  function IntegerText(c: char, v: int, d: Directive): string {
    var f := FlagsFor(c, d.flags);
    FieldText(Converted(d.qualifier, f.sign, v), BaseOf(c), d.width, d.precision, f)
  }

  /** One round of the main loop: its text, where the next one starts, and the arguments
      it leaves. */
  datatype Round = Round(text: string, next: nat, args: seq<Arg>)

  function ConversionAt(c: char, d: Directive): Round {
    if c == 'c' then Round(CharText(NumAt(d.args), d), d.p + 1, Rest(d.args))
    else if c == 's' then Round(StrText(StrAt(d.args), d), d.p + 1, Rest(d.args))
    else if c == 'p' then Round(PointerText(NumAt(d.args), d), d.p + 1, Rest(d.args))
    else if c == 'n' then Round("", d.p + 1, Rest(d.args))
    else if c == '%' then Round("%", d.p + 1, d.args)
    else if IsInteger(c) then Round(IntegerText(c, NumAt(d.args), d), d.p + 1, Rest(d.args))
    else if c == NUL then Round("%", d.p, d.args)
    else Round(['%', c], d.p + 1, d.args)
  }

  function RoundAt(fmt: string, p: nat, args: seq<Arg>): (r: Round)
    requires CString(fmt) && p < |fmt| && fmt[p] != NUL
    ensures p < r.next < |fmt|
  {
    if fmt[p] != '%' then Round([fmt[p]], p + 1, args)
    else
      var d := DirectiveAt(fmt, p + 1, args);
      ConversionAt(fmt[d.p], d)
  }

  /** The whole text that fmt describes from p on. */
  function Formatted(fmt: string, p: nat, args: seq<Arg>): string
    requires CString(fmt) && p < |fmt|
    decreases |fmt| - p
  {
    if fmt[p] == NUL then "" else
      var r := RoundAt(fmt, p, args);
      r.text + Formatted(fmt, r.next, r.args)
  }

  lemma NextRound(fmt: string, p: nat, args: seq<Arg>)
    requires CString(fmt) && p < |fmt| && fmt[p] != NUL
    ensures var r := RoundAt(fmt, p, args);
      Formatted(fmt, p, args) == r.text + Formatted(fmt, r.next, r.args)
  {
  }

  lemma Associative(a: string, b: string, c: string)
    ensures a + (b + c) == a + b + c
  {
  }

  // ---------- the methods ----------

  method SkipAtoi(fmt: string, p: nat) returns (i: nat, q: nat)
    requires CString(fmt) && p < |fmt|
    ensures (i, q) == AtoiAt(fmt, p, 0)
  {
    i, q := 0, p;
    while IsDigit(fmt[q])
      invariant p <= q < |fmt| && AtoiAt(fmt, q, i) == AtoiAt(fmt, p, 0)
      decreases |fmt| - q
    {
      i := i * 10 + (fmt[q] as int - 48);
      q := q + 1;
    }
  }

  method ParseFlags(fmt: string, p: nat) returns (f: Flags, q: nat)
    requires CString(fmt) && p < |fmt|
    ensures (f, q) == FlagsAt(fmt, p, NO_FLAGS)
  {
    f, q := NO_FLAGS, p;
    while IsFlag(fmt[q])
      invariant p <= q < |fmt| && FlagsAt(fmt, q, f) == FlagsAt(fmt, p, NO_FLAGS)
      decreases |fmt| - q
    {
      f := WithFlag(f, fmt[q]);
      q := q + 1;
    }
  }

  method ParseWidth(fmt: string, p: nat, f: Flags, args: seq<Arg>) returns (d: Directive)
    requires CString(fmt) && p < |fmt|
    ensures d == WithWidth(fmt, p, f, args)
  {
    var flags, width, q, rest := f, -1, p, args;
    if IsDigit(fmt[q]) {
      width, q := SkipAtoi(fmt, q);
    } else if fmt[q] == '*' {
      q := q + 1;
      width := Signed(NumAt(rest), TWO_32);
      rest := Rest(rest);
      if width < 0 {
        width := -width;
        flags := flags.(left := true);
      }
    }
    d := Directive(flags, width, -1, NUL, q, rest);
  }

  method ParsePrecision(fmt: string, d0: Directive) returns (d: Directive)
    requires CString(fmt) && d0.p < |fmt|
    ensures d == WithPrecision(fmt, d0)
  {
    d := d0;
    if fmt[d.p] == '.' {
      var precision, q, rest := -1, d.p + 1, d.args;
      if IsDigit(fmt[q]) {
        precision, q := SkipAtoi(fmt, q);
      } else if fmt[q] == '*' {
        q := q + 1;
        precision := Signed(NumAt(rest), TWO_32);
        rest := Rest(rest);
      }
      if precision < 0 {
        precision := 0;
      }
      d := d.(precision := precision, p := q, args := rest);
    }
  }

  method ParseQualifier(fmt: string, d0: Directive) returns (d: Directive)
    requires CString(fmt) && d0.p < |fmt|
    ensures d == WithQualifier(fmt, d0)
  {
    d := d0;
    if IsQualifier(fmt[d.p]) {
      var qualifier, q := fmt[d.p], d.p + 1;
      if qualifier == 'l' && fmt[q] == 'l' {
        qualifier := 'L';
        q := q + 1;
      }
      d := d.(qualifier := qualifier, p := q);
    }
  }

  /** Flags, width, precision and qualifier, from behind the '%'. */
  method ParseDirective(fmt: string, p: nat, args: seq<Arg>) returns (d: Directive)
    requires CString(fmt) && p < |fmt|
    ensures d == DirectiveAt(fmt, p, args)
  {
    var flags, q := ParseFlags(fmt, p);
    d := ParseWidth(fmt, q, flags, args);
    d := ParsePrecision(fmt, d);
    d := ParseQualifier(fmt, d);
  }

  method Strnlen(s: string, count: int) returns (n: nat)
    ensures n == StrNLen(s, count)
  {
    n := 0;
    var left := count;
    assert s[0..] == s;
    while left != 0 && n < |s| && s[n] != NUL
      invariant n <= |s| && n + StrNLen(s[n..], left) == StrNLen(s, count)
      decreases |s| - n
    {
      assert s[n..][1..] == s[n + 1..];
      left := left - 1;
      n := n + 1;
    }
  }

  // The directives that pad one piece of text: %c and %s.
  method EmitPadded(buf: array<char>, str: nat, end: int, text: string, d: Directive,
                    ghost b0: string, ghost done: string)
    returns (next: nat)
    requires end < buf.Length && str == |done| && Emitted(b0, buf[..], end, done)
    modifies buf
    ensures var all := done + (Repeat(' ', if d.flags.left then 0 else d.width - |text|) + text
                               + Repeat(' ', if d.flags.left then d.width - |text| else 0));
      next == |all| && Emitted(b0, buf[..], end, all)
  {
    var pad := d.width - |text|;
    ghost var a := Repeat(' ', if d.flags.left then 0 else pad);
    ghost var b := Repeat(' ', if d.flags.left then pad else 0);
    assert done + "" == done && done + a + text + b == done + (a + text + b);
    next := str;
    if !d.flags.left {
      next, pad := Fill(buf, next, end, ' ', pad, b0, done);
    }
    next := PutAll(buf, next, end, text, b0, done + a);
    next, pad := Fill(buf, next, end, ' ', pad, b0, done + a + text);
  }

  /** The conversion at c: its text behind done. */
  method EmitConversion(buf: array<char>, str: nat, end: int, c: char, d: Directive,
                        ghost b0: string, ghost done: string)
    returns (next: nat)
    requires end < buf.Length && str == |done| && Emitted(b0, buf[..], end, done)
    modifies buf
    ensures var text := done + ConversionAt(c, d).text;
      next == |text| && Emitted(b0, buf[..], end, text)
  {
    hide Emitted, FieldText, Converted, Repeat;
    next := str;
    if c == 'c' {
      next := EmitPadded(buf, str, end, [(NumAt(d.args) % 256) as char], d, b0, done);
    } else if c == 's' {
      var s := StrAt(d.args);
      var len := Strnlen(s, d.precision);
      next := EmitPadded(buf, str, end, s[..len], d, b0, done);
    } else if c == 'p' {
      var width, flags := d.width, d.flags;
      if width == -1 {
        width := 8;
        flags := flags.(zeropad := true);
      }
      var r := Number.Number(buf, str, end, Unsigned(NumAt(d.args), TWO_32), 16, width, d.precision, flags, b0, done);
      next := r.value;
    } else if c == 'n' {
      assert done + "" == done;
    } else if c == '%' {
      next := Put(buf, str, end, '%', b0, done);
    } else if IsInteger(c) {
      var f := FlagsFor(c, d.flags);
      var num := Converted(d.qualifier, f.sign, NumAt(d.args));
      var r := Number.Number(buf, str, end, num, BaseOf(c), d.width, d.precision, f, b0, done);
      next := r.value;
    } else {
      next := Put(buf, str, end, '%', b0, done);
      if c != NUL {
        next := Put(buf, next, end, c, b0, done + ['%']);
        assert done + ['%'] + [c] == done + ['%', c];
      }
    }
  }

  /** How many cells vsnprintf may write for a buffer of the given size at addr: no more
      than there are up to the end of the address space, but all of it for a null pointer,
      where the address before the buffer wraps to the last one. */
  function Room(addr: nat, size: nat): int {
    if addr == 0 then TWO_32 else if addr + size > TWO_32 then TWO_32 - addr else size
  }

  /** The position of the last cell, and the size cut to the address space. Addresses wrap. */
  method LastCell(addr: nat, size: nat) returns (end: int, cut: nat)
    requires addr < TWO_32 && size < TWO_32
    ensures -1 <= end == Room(addr, size) - 1 && cut == if addr == 0 then 0 else Room(addr, size)
  {
    var last := (addr + size - 1) % TWO_32;
    cut := size;
    if last < (addr - 1) % TWO_32 {
      last := TWO_32 - 1;
      cut := (last - addr + 1) % TWO_32;
    }
    end := last - addr;
  }

  lemma RoundIs(fmt: string, p: nat, args: seq<Arg>)
    requires CString(fmt) && p < |fmt| && fmt[p] != NUL
    ensures p + 1 < |fmt| && p < RoundAt(fmt, p, args).next < |fmt|
    ensures RoundAt(fmt, p, args) ==
      if fmt[p] != '%' then Round([fmt[p]], p + 1, args)
      else var d := DirectiveAt(fmt, p + 1, args); ConversionAt(fmt[d.p], d)
  {
  }

  lemma NothingBefore(text: string)
    ensures "" + text == text
  {
  }

  lemma TextBehind(done: string, fmt: string, p: nat, args: seq<Arg>, text: string)
    requires CString(fmt) && p < |fmt| && done + Formatted(fmt, p, args) == text
    ensures fmt[p] == NUL ==> done == text
    ensures fmt[p] != NUL ==>
      var r := RoundAt(fmt, p, args); done + r.text + Formatted(fmt, r.next, r.args) == text
  {
    if fmt[p] == NUL {
      assert done + "" == done;
    } else {
      var r := RoundAt(fmt, p, args);
      NextRound(fmt, p, args);
      Associative(done, r.text, Formatted(fmt, r.next, r.args));
    }
  }

  /** The body of the main loop: one character or one directive, and where the next one is. */
  method OneRound(buf: array<char>, str: nat, end: int, fmt: string, p: nat, args: seq<Arg>,
                  ghost b0: string, ghost done: string)
    returns (length: nat, next: nat, rest: seq<Arg>)
    requires CString(fmt) && p < |fmt| && fmt[p] != NUL
    requires end < buf.Length && str == |done| && Emitted(b0, buf[..], end, done)
    modifies buf
    ensures var r := RoundAt(fmt, p, args);
      && length == |done + r.text| && next == r.next < |fmt| && next > p && rest == r.args
      && Emitted(b0, buf[..], end, done + r.text)
  {
    RoundIs(fmt, p, args);
    hide *;
    if fmt[p] != '%' {
      length := Put(buf, str, end, fmt[p], b0, done);
      next, rest := p + 1, args;
    } else {
      var d := ParseDirective(fmt, p + 1, args);
      var c := fmt[d.p];
      length := EmitConversion(buf, str, end, c, d, b0, done);
      next, rest := Advance(c, d), ArgsLeft(c, d);
    }
  }

  /** after is before with as many characters of text as fit into n cells together with a
      NUL behind them. If n is 0, nothing has changed. */
  ghost predicate Bounded(before: string, after: string, n: nat, text: string) {
    var kept := if |text| < n then |text| else n - 1;
    && |after| == |before| && n <= |after|
    && (n > 0 ==> after[..kept] == text[..kept] && after[kept] == NUL)
    && forall k :: kept < k < |after| ==> after[k] == before[k]
  }

  /** For a buffer of size cells that lies in the address space: the first
      min(|text|, size - 1) characters and a NUL if size > 0, and nothing behind them. */
  lemma OrdinaryBuffer(addr: nat, size: nat, before: string, after: string, text: string)
    requires 0 < addr && addr + size <= TWO_32 && Bounded(before, after, Room(addr, size), text)
    ensures size == 0 ==> after == before
    ensures size > 0 ==>
      var kept := Min(|text|, size - 1);
      && kept < size <= |after| == |before|
      && after[..kept] == text[..kept] && after[kept] == NUL
      && after[kept + 1..] == before[kept + 1..]
  {
  }

  function Min(x: int, y: int): int {
    if x < y then x else y
  }

  /** A call with size 0 writes nothing exactly if the buffer is not null. For a null
      pointer, which ISO C99 allows there (section 7.19.6.5), the whole text is written
      from address 0 on. */
  lemma SizeZero(addr: nat, before: string, after: string, text: string)
    requires addr < TWO_32 && |text| < TWO_32 && Bounded(before, after, Room(addr, 0), text)
    ensures Room(addr, 0) == 0 <==> addr != 0
    ensures addr != 0 ==> after == before
    ensures addr == 0 ==> after[..|text|] == text && after[|text|] == NUL
  {
    assert text[..|text|] == text;
  }

  /** vsnprintf. With room for n > 0 characters the buffer gets as many characters of the
      whole text as fit before a terminating NUL, and nothing else is written; with
      room for none nothing is. The result is always the length of the whole text. The
      array stands for the memory from addr on, and the cursor, which moves on behind the
      end of the buffer, stays within the address space. */
  method Vsnprintf(buf: array<char>, addr: nat, size: nat, fmt: string, args: seq<Arg>) returns (length: nat)
    requires addr < TWO_32 && size < TWO_32 && Room(addr, size) <= buf.Length
    requires CString(fmt) && addr + |Formatted(fmt, 0, args)| < TWO_32
    modifies buf
    ensures length == |Formatted(fmt, 0, args)|
    ensures Bounded(old(buf[..]), buf[..], Room(addr, size), Formatted(fmt, 0, args))
  {
    ghost var b0, text := buf[..], Formatted(fmt, 0, args);
    assert |fmt| > 0;
    hide *;
    var end, cut := LastCell(addr, size);
    length := 0;
    var p, rest := 0, args;
    ghost var done := "";
    NothingEmitted(b0, end);
    NothingBefore(text);
    while fmt[p] != NUL
      invariant p < |fmt| && length == |done| && Emitted(b0, buf[..], end, done)
      invariant done + Formatted(fmt, p, rest) == text
      decreases |fmt| - p
    {
      ghost var r := RoundAt(fmt, p, rest);
      TextBehind(done, fmt, p, rest, text);
      length, p, rest := OneRound(buf, length, end, fmt, p, rest, b0, done);
      done := done + r.text;
    }
    TextBehind(done, fmt, p, rest, text);
    Finish(buf, length, end, cut, b0, text);
  }

  // ++fmt, after --fmt for a directive that the end of the format cuts off
  function Advance(c: char, d: Directive): (p: nat)
    ensures p == ConversionAt(c, d).next
  {
    if c == NUL then d.p else d.p + 1
  }

  function ArgsLeft(c: char, d: Directive): (args: seq<Arg>)
    ensures args == ConversionAt(c, d).args
  {
    if c == 'c' || c == 's' || c == 'p' || c == 'n' || IsInteger(c) then Rest(d.args) else d.args
  }

  /** The terminating NUL. */
  method Finish(buf: array<char>, str: nat, end: int, size: int, ghost b0: string, ghost text: string)
    requires -1 <= end < buf.Length && str == |text| && Emitted(b0, buf[..], end, text)
    requires size == end + 1 || |text| <= end
    modifies buf
    ensures Bounded(b0, buf[..], end + 1, text)
  {
    if str <= end {
      buf[str] := NUL;
    } else if size > 0 {
      buf[end] := NUL;
    }
  }
}
