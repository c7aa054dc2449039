/** What vsscanf does with a format (lib/vsprintf.c, lines 527-693): white space, literal text
    behind it, and the directives for percent signs, positions and integers. */
module ScanLaws {
  import opened Ctype
  import opened Number
  import opened Parse
  import opened RoundTrip
  import opened Printf
  import opened Conversions
  import opened Scanf

  // ---------- white space ----------

  // White space stands in s from p to q and no further.
  ghost predicate Blank(s: string, p: nat, q: nat) {
    p <= q < |s| && (forall k: nat | p <= k < q :: IsSpace(s[k])) && !IsSpace(s[q])
  }

  lemma {:induction false} SkipsBlank(s: string, p: nat, q: nat)
    requires CString(s) && Blank(s, p, q)
    ensures SkipSpace(s, p) == q
    decreases q - p
  {
    if p < q {
      SkipsBlank(s, p + 1, q);
    }
  }

  lemma EndsThere(s: string, fmt: string, at: Cursor)
    requires CString(s) && CString(fmt) && at.a < |s| && at.b < |fmt| && s[at.a] == NUL
    ensures ScanFrom(s, fmt, at) == Scanned([], 0)
  {
  }

  // A step at the end of the input ends the scan, at once or with the next one.
  lemma StepAtEnd(s: string, fmt: string, at: Cursor)
    requires CString(s) && CString(fmt) && at.a < |s| && at.b < |fmt| && s[at.a] == NUL
    ensures var r := DirectiveStep(s, fmt, at);
      r.Stop? || (r.stores == [] && r.counted == 0 && s[r.next.a] == NUL)
  {
    assert SkipWord(s, at.a) == at.a;
    hide AtoiAt, Convert;
  }

  // The same round, from behind the white space.
  lemma SameStep(s: string, fmt: string, at: Cursor, to: Cursor)
    requires CString(s) && CString(fmt) && at.a < |s| && at.b < |fmt| && s[at.a] != NUL && IsSpace(fmt[at.b])
    requires Blank(s, at.a, to.a) && Blank(fmt, at.b, to.b) && to.width == at.width
    requires s[to.a] != NUL && fmt[to.b] != NUL
    ensures StepAt(s, fmt, at) == StepAt(s, fmt, to)
  {
    SkipsBlank(s, at.a, to.a);
    SkipsBlank(fmt, at.b, to.b);
    hide DirectiveStep, SkipSpace, IsSpace, CString;
    assert fmt[at.b] != NUL;
  }

  // White space at the end of the input: what follows in the format is not scanned.
  lemma BlankAtEnd(s: string, fmt: string, at: Cursor, to: Cursor)
    requires CString(s) && CString(fmt) && at.a < |s| && at.b < |fmt| && s[at.a] != NUL && IsSpace(fmt[at.b])
    requires Blank(s, at.a, to.a) && Blank(fmt, at.b, to.b) && s[to.a] == NUL
    ensures ScanFrom(s, fmt, at) == Scanned([], 0)
  {
    SkipsBlank(s, at.a, to.a);
    SkipsBlank(fmt, at.b, to.b);
    assert fmt[at.b] != NUL;
    if fmt[to.b] == '%' {
      var n := to.b + 1;
      StepAtEnd(s, fmt, Cursor(to.a, n, at.width));
    }
    hide DirectiveStep, SkipSpace, IsSpace, CString;
    var r := StepAt(s, fmt, at);
    if r.Go? {
      EndsThere(s, fmt, r.next);
    }
  }

  lemma BlankThenEnd(s: string, fmt: string, at: Cursor, to: Cursor)
    requires CString(s) && CString(fmt) && at.a < |s| && at.b < |fmt| && s[at.a] != NUL && IsSpace(fmt[at.b])
    requires Blank(s, at.a, to.a) && Blank(fmt, at.b, to.b) && fmt[to.b] == NUL
    ensures ScanFrom(s, fmt, at) == Scanned([], 0)
  {
    SkipsBlank(fmt, at.b, to.b);
    assert fmt[at.b] != NUL;
    hide DirectiveStep, SkipSpace, IsSpace;
  }

  /** White space in the format stands for any amount of white space in the input, none
      included: the scan goes on behind both, whatever follows. */
  lemma WhiteSpaceMatches(s: string, fmt: string, at: Cursor, to: Cursor)
    requires CString(s) && CString(fmt) && at.a < |s| && at.b < |fmt| && IsSpace(fmt[at.b])
    requires Blank(s, at.a, to.a) && Blank(fmt, at.b, to.b) && to.width == at.width
    ensures ScanFrom(s, fmt, at) == ScanFrom(s, fmt, to)
  {
    hide StepAt;
    if s[at.a] == NUL {
      assert to.a == at.a;
    } else if s[to.a] == NUL {
      BlankAtEnd(s, fmt, at, to);
    } else if fmt[to.b] == NUL {
      BlankThenEnd(s, fmt, at, to);
    } else {
      SameStep(s, fmt, at, to);
      assert fmt[at.b] != NUL;
    }
  }

  // ---------- the parts of a directive ----------

  lemma StepsAtPercent(s: string, fmt: string, a: nat, b: nat, n: nat, width: int)
    requires CString(s) && CString(fmt) && a < |s| && s[a] != NUL && n == b + 1 < |fmt| && fmt[b] == '%'
    ensures StepAt(s, fmt, Cursor(a, b, width)) == DirectiveStep(s, fmt, Cursor(a, n, width))
  {
    hide DirectiveStep, SkipSpace, CString;
  }

  // The field width behind the digits that end at e.
  function WidthBehind(fmt: string, at: Cursor, e: nat): int
    requires at.b <= e <= |fmt|
  {
    if at.b == e then at.width else Denoted(fmt[at.b..e], 10)
  }

  // A directive whose digits, if any, end at e; its conversion character is at b, which is
  // behind the qualifier, if there is one, and n is behind it.
  lemma StepBehindDigits(s: string, fmt: string, at: Cursor, e: nat, b: nat, n: nat)
    requires CString(s) && CString(fmt) && at.a < |s| && at.b <= e < |fmt| && fmt[at.b] != '*'
    requires !IsDigit(fmt[e]) && forall k: nat | at.b <= k < e :: IsDigit(fmt[k])
    requires b == (if IsQualifier(fmt[e]) then e + 1 else e) && n == b + 1
    ensures b < |fmt|
    ensures var w, q := WidthBehind(fmt, at, e), if b == e then NUL else fmt[e];
      DirectiveStep(s, fmt, at) ==
        if fmt[b] == NUL || s[at.a] == NUL then Stop else Convert(s, fmt[b], q, Cursor(at.a, n, w))
  {
    AtoiReads(fmt, at.b);
    OneRun(fmt, at.b, e, AtoiAt(fmt, at.b, 0).1);
    assert at.b < e ==> IsDigit(fmt[at.b]);
    assert IsQualifier(fmt[e]) ==> fmt[e] != NUL;
    hide AtoiAt, Convert, IsDigit, IsQualifier, Denoted;
    var (w, e') := if IsDigit(fmt[at.b]) then AtoiAt(fmt, at.b, 0) else (at.width, at.b);
    assert e' == e && w == WidthBehind(fmt, at, e);
  }

  // ---------- directives without digits ----------

  // A round at a '%' whose conversion character is c, or n a qualifier before it.
  lemma AtPercent(s: string, fmt: string, at: Cursor, c: char, n: nat)
    requires CString(s) && CString(fmt) && at.a < |s| && s[at.a] != NUL && n == at.b + 2 < |fmt|
    requires fmt[at.b] == '%' && fmt[at.b + 1] == c != NUL && c != '*' && !IsDigit(c) && !IsQualifier(c)
    ensures StepAt(s, fmt, at) == Convert(s, c, NUL, Cursor(at.a, n, at.width))
  {
    hide Convert, SkipSpace, AtoiAt;
  }

  /** %% passes a percent sign, and ends the scan at anything else. */
  lemma PercentDirective(s: string, fmt: string, at: Cursor, n: nat)
    requires CString(s) && CString(fmt) && at.a < |s| && n == at.b + 2 < |fmt|
    requires fmt[at.b] == '%' && fmt[at.b + 1] == '%'
    ensures s[at.a] == '%' ==> at.a + 1 < |s|
    ensures ScanFrom(s, fmt, at) ==
      if s[at.a] == '%' then ScanFrom(s, fmt, Cursor(at.a + 1, n, at.width)) else Scanned([], 0)
  {
    if s[at.a] != NUL {
      AtPercent(s, fmt, at, '%', n);
      assert Convert(s, '%', NUL, Cursor(at.a, n, at.width)) ==
        if s[at.a] == '%' then Go(Cursor(at.a + 1, n, at.width), [], 0) else Stop;
    }
    hide StepAt, Convert;
  }

  /** %n stores how much of the input has been read, and does not count. */
  lemma PositionDirective(s: string, fmt: string, at: Cursor, n: nat)
    requires CString(s) && CString(fmt) && at.a < |s| && n == at.b + 2 < |fmt| && s[at.a] != NUL
    requires fmt[at.b] == '%' && fmt[at.b + 1] == 'n'
    ensures var all, rest := ScanFrom(s, fmt, at), ScanFrom(s, fmt, Cursor(at.a, n, at.width));
      all == Scanned([Int(at.a)] + rest.stores, rest.num)
  {
    AtPercent(s, fmt, at, 'n', n);
    assert Convert(s, 'n', NUL, Cursor(at.a, n, at.width)) == Go(Cursor(at.a, n, at.width), [Int(at.a)], 0);
    hide StepAt, Convert;
  }

  /** Any other character behind the '%' ends the scan. */
  lemma UnknownDirective(s: string, c: char, q: char, at: Cursor)
    requires CString(s) && at.a < |s| && s[at.a] != NUL && c !in "csn%diuoxX"
    ensures Convert(s, c, q, at) == Stop
  {
    hide CharsEnd, WordEnd, SkipSpace, ReadInt;
  }

  // ---------- integers ----------

  // The digits of the base in s from p on end at e.
  ghost predicate Numerals(s: string, p: nat, e: nat, base: nat) {
    p <= e < |s| && (forall k: nat | p <= k < e :: ReadableDigit(s[k], base)) && !ReadableDigit(s[e], base)
  }

  lemma OneNumeral(s: string, p: nat, e: nat, e': nat, base: nat)
    requires Numerals(s, p, e, base) && Numerals(s, p, e', base)
    ensures e == e'
  {
  }

  lemma ReadsRun(s: string, p: nat, e: nat, base: nat, modulus: nat)
    requires CString(s) && base > 0 && modulus > 0 && Numerals(s, p, e, base)
    ensures ParseUnsigned(s, p, base, modulus) == Parsed(Denoted(s[p..e], base) % modulus, e)
  {
    ReadsUnsigned(s, p, base, modulus);
    var r := ParseUnsigned(s, p, base, modulus);
    hide ParseUnsigned, ReadableDigit, Denoted;
    OneNumeral(s, p, e, r.end, base);
  }

  lemma ReadsRunSigned(s: string, p: nat, e: nat, base: nat, modulus: nat)
    requires CString(s) && base > 0 && (modulus == TWO_32 || modulus == TWO_64)
    requires Numerals(s, p, e, base) && s[p] != '-'
    ensures var r := ParseSigned(s, p, base, modulus);
      && r.end == e && -(modulus / 2) <= r.value < modulus / 2
      && (r.value - Denoted(s[p..e], base)) % modulus == 0
  {
    ReadsSigned(s, p, base, modulus);
    ReadsRun(s, p, e, base, modulus);
    hide *;
  }

  // x is what the reader for a qualifier stores of n, which it has read in 32 or 64 bits.
  lemma StoredFits(q: char, signed: bool, n: int, u32: int, s32: int, u64: int, s64: int, x: int)
    requires u32 == n % TWO_32 && -0x8000_0000 <= s32 < 0x8000_0000 && (s32 - n) % TWO_32 == 0
    requires u64 == n % TWO_64 && -TWO_63 <= s64 < TWO_63 && (s64 - n) % TWO_64 == 0
    requires x == if q == 'L' then if signed then s64 else u64
                  else if q == 'h' then if signed then Signed(s32, TWO_16) else Unsigned(u32, TWO_16)
                  else if signed && q != 'Z' then s32 else u32
    ensures Fits(q, signed, x) && (x - n) % TypeSize(q) == 0
  {
    Remainder(n);
    if q == 'h' {
      Cast16(s32);
      Cast16(u32);
      Cut(n, if signed then s32 else u32, x);
    }
    hide Signed, Unsigned;
  }

  lemma Remainder(n: int)
    ensures 0 <= n % TWO_32 < TWO_32 && (n % TWO_32 - n) % TWO_32 == 0
    ensures 0 <= n % TWO_64 < TWO_64 && (n % TWO_64 - n) % TWO_64 == 0
  {
  }

  // Cutting a number to 32 bits and then to 16 is cutting it to 16.
  lemma Cut(n: int, u: int, x: int)
    requires (u - n) % TWO_32 == 0 && (x - u) % 0x1_0000 == 0
    ensures (x - n) % 0x1_0000 == 0
  {
  }

  lemma ReadIntIs(s: string, p: nat, q: char, signed: bool, base: nat, e: nat)
    requires CString(s) && p < |s| && base > 0
    requires ParseUnsigned(s, p, base, TWO_32).end == e == ParseUnsigned(s, p, base, TWO_64).end
    requires ParseSigned(s, p, base, TWO_32).end == e == ParseSigned(s, p, base, TWO_64).end
    ensures var u32, s32 := ParseUnsigned(s, p, base, TWO_32).value, ParseSigned(s, p, base, TWO_32).value;
      var u64, s64 := ParseUnsigned(s, p, base, TWO_64).value, ParseSigned(s, p, base, TWO_64).value;
      ReadInt(s, p, q, signed, base) ==
        Parsed(if q == 'L' then if signed then s64 else u64
               else if q == 'h' then if signed then Signed(s32, TWO_16) else Unsigned(u32, TWO_16)
               else if signed && q != 'Z' then s32 else u32, e)
  {
    hide ParseUnsigned, ParseSigned, Signed, Unsigned;
  }

  /** The digits of an integer directive are read as a number, which is stored with the value
      that it has in the type of the argument. */
  lemma IntegerRead(s: string, p: nat, e: nat, q: char, signed: bool, base: nat)
    requires CString(s) && base > 0 && Numerals(s, p, e, base) && s[p] != '-'
    ensures ReadInt(s, p, q, signed, base) == Parsed(ValueIn(q, signed, Denoted(s[p..e], base)), e)
  {
    hide ParseUnsigned, ParseSigned, Denoted, ValueIn, ReadInt, Signed, Unsigned, CString;
    var n: int := Denoted(s[p..e], base);
    ReadsRun(s, p, e, base, TWO_32);
    ReadsRun(s, p, e, base, TWO_64);
    ReadsRunSigned(s, p, e, base, TWO_32);
    ReadsRunSigned(s, p, e, base, TWO_64);
    ReadIntIs(s, p, q, signed, base, e);
    var x := ReadInt(s, p, q, signed, base).value;
    StoredFits(q, signed, n, ParseUnsigned(s, p, base, TWO_32).value, ParseSigned(s, p, base, TWO_32).value,
               ParseUnsigned(s, p, base, TWO_64).value, ParseSigned(s, p, base, TWO_64).value, x);
    OnlyValue(q, signed, n, x);
  }

  lemma IntegerConversion(s: string, c: char, q: char, at: Cursor, p: nat)
    requires CString(s) && at.a < |s| && s[at.a] != NUL && c in "diuoxX" && p == SkipSpace(s, at.a)
    ensures Convert(s, c, q, at) ==
      if !IsDigit(s[p]) then Stop
      else var r := ReadInt(s, p, q, c in "di", Base(c)); Go(at.(a := r.end), [Int(r.value)], 1)
  {
    IntegerIs(c, NO_FLAGS);
    hide ReadInt, SkipSpace, CharsEnd, WordEnd;
  }

  /** %d, %i, %u, %o, %x and %X behind white space: the number that the digits of the base
      denote is stored, with the value that it has in the type that the qualifier names. At
      anything but a decimal digit, a minus sign included, the scan ends. */
  lemma StoresInteger(s: string, c: char, q: char, at: Cursor, p: nat, e: nat)
    requires CString(s) && at.a < |s| && s[at.a] != NUL && c in "diuoxX"
    requires Blank(s, at.a, p) && Numerals(s, p, e, Base(c))
    ensures Convert(s, c, q, at) ==
      if '0' <= s[p] <= '9' then
        Go(at.(a := e), [Int(ValueIn(q, c in "di", Denoted(s[p..e], Base(c))))], 1)
      else Stop
  {
    SkipsBlank(s, at.a, p);
    IntegerConversion(s, c, q, at, p);
    hide Convert, ReadInt, Denoted, ValueIn, SkipSpace, CString;
    if IsDigit(s[p]) {
      IntegerRead(s, p, e, q, c in "di", Base(c));
    }
  }

  /** An integer directive: a width up to e, a qualifier and the conversion, which ends before
      n. In the input the digits stand from p to x, behind white space. The value is stored
      and counted, and the scan goes on behind both, or it ends there. */
  lemma IntegerDirective(s: string, fmt: string, at: Cursor, m: nat, e: nat, b: nat, n: nat, p: nat, x: nat)
    requires CString(s) && CString(fmt) && at.a < |s| && s[at.a] != NUL && at.b < |fmt| && fmt[at.b] == '%'
    requires m == at.b + 1 && DigitRun(fmt, m, e) && b == (if fmt[e] in "hlLZ" then e + 1 else e) < |fmt|
    requires n == b + 1 && fmt[b] in "diuoxX"
    requires Blank(s, at.a, p) && Numerals(s, p, x, Base(fmt[b]))
    ensures n < |fmt|
    ensures var c, q := fmt[b], if b == e then NUL else fmt[e];
      var rest := ScanFrom(s, fmt, Cursor(x, n, if m == e then at.width else Denoted(fmt[m..e], 10)));
      ScanFrom(s, fmt, at) ==
        if '0' <= s[p] <= '9' then
          Scanned([Int(ValueIn(q, c in "di", Denoted(s[p..x], Base(c))))] + rest.stores, 1 + rest.num)
        else Scanned([], 0)
  {
    var q, to := if b == e then NUL else fmt[e], Cursor(at.a, m, at.width);
    NotInDigits(fmt, m, e, b);
    StepsAtPercent(s, fmt, at.a, at.b, m, at.width);
    StepBehindDigits(s, fmt, to, e, b, n);
    StoresInteger(s, fmt[b], q, Cursor(at.a, n, WidthBehind(fmt, to, e)), p, x);
    hide StepAt, DirectiveStep, Convert, Numerals, Blank, ValueIn, Denoted, CString;
  }

  lemma NotInDigits(fmt: string, m: nat, e: nat, b: nat)
    requires CString(fmt) && DigitRun(fmt, m, e) && b < |fmt|
    requires b == (if fmt[e] in "hlLZ" then e + 1 else e) && fmt[b] in "diuoxX"
    ensures fmt[m] != '*' && fmt[b] != NUL && b + 1 < |fmt|
    ensures IsQualifier(fmt[e]) <==> fmt[e] in "hlLZ"
  {
    assert fmt[b] != NUL && fmt[b] != '*' && '*' !in "hlLZ";
    if m < e {
      assert '0' <= fmt[m] <= '9';
    }
  }
}
