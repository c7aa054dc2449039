/** What directives mean (lib/vsprintf.c, lines 109-219 and 255-443): the values that arguments
    have in their types, what flags, width and precision say, and the text of each conversion,
    in terms of the numbers that digits denote. */
module Conversions {
  import opened Ctype
  import opened Output
  import opened Number
  import opened Parse
  import opened RoundTrip
  import opened Printf

  // ---------- the types of integer arguments ----------

  /** How many values the type has that a qualifier names; NUL stands for none. A long has
      32 bits. */
  function TypeSize(q: char): nat {
    if q == 'L' then 0x1_0000_0000_0000_0000 else if q == 'h' then 0x1_0000 else 0x1_0000_0000
  }

  /** The least of them. A size_t has no sign. */
  function Least(q: char, signed: bool): int {
    if signed && q != 'Z' then -(TypeSize(q) / 2) else 0
  }

  predicate Fits(q: char, signed: bool, v: int) {
    Least(q, signed) <= v < Least(q, signed) + TypeSize(q)
  }

  /** The number from least on, and below least + size, that differs from v by a multiple of size. */
  function Residue(v: int, least: int, size: nat): (x: int)
    requires size > 0
    ensures least <= x < least + size && (x - v) % size == 0
    ensures least <= v < least + size ==> x == v
  {
    var q, r := (v - least) / size, (v - least) % size;
    assert v - least == q * size + r;
    QuotientUnique(least + r - v, size, -q, 0);
    OnlyResidue(v, least, size);
    least + r
  }

  lemma OnlyResidue(v: int, least: int, size: nat)
    requires size > 0
    ensures least <= v < least + size ==> (v - least) % size == v - least
  {
    if least <= v < least + size {
      QuotientUnique(v - least, size, 0, v - least);
    }
  }

  /** The value of v in such a type: the one that differs from v by a multiple of the size. */
  function ValueIn(q: char, signed: bool, v: int): (x: int)
    ensures Fits(q, signed, x) && (x - v) % TypeSize(q) == 0
    ensures Fits(q, signed, v) ==> x == v
  {
    Residue(v, Least(q, signed), TypeSize(q))
  }

  function Abs(x: int): nat {
    if x < 0 then -x else x
  }

  // Only one value of a type differs from v by a multiple of the size.
  lemma OnlyValue(q: char, signed: bool, v: int, x: int)
    requires Fits(q, signed, x) && (x - v) % TypeSize(q) == 0
    ensures x == ValueIn(q, signed, v)
  {
    hide ValueIn;
  }

  lemma Cast16(v: int)
    ensures 0 <= Unsigned(v, TWO_16) < 0x1_0000 && (Unsigned(v, TWO_16) - v) % 0x1_0000 == 0
    ensures -0x8000 <= Signed(v, TWO_16) < 0x8000 && (Signed(v, TWO_16) - v) % 0x1_0000 == 0
  {
  }

  lemma Cast32(v: int)
    ensures 0 <= Unsigned(v, TWO_32) < 0x1_0000_0000 && (Unsigned(v, TWO_32) - v) % 0x1_0000_0000 == 0
    ensures -0x8000_0000 <= Signed(v, TWO_32) < 0x8000_0000 && (Signed(v, TWO_32) - v) % 0x1_0000_0000 == 0
  {
  }

  lemma Cast64(v: int)
    ensures -0x8000_0000_0000_0000 <= Signed(v, TWO_64) < 0x8000_0000_0000_0000
    ensures (Signed(v, TWO_64) - v) % 0x1_0000_0000_0000_0000 == 0
  {
  }

  lemma ConvertedFits(q: char, signed: bool, v: int)
    requires signed || q != 'L'
    ensures Fits(q, signed, Converted(q, signed, v)) && (Converted(q, signed, v) - v) % TypeSize(q) == 0
  {
    Cast16(v);
    Cast32(v);
    Cast64(v);
    hide Signed, Unsigned;
  }

  /** What vsnprintf hands to number for an argument is its value in the type. An unsigned
      long long is handed over as the same bits. */
  lemma ConvertedIs(q: char, signed: bool, v: int, f: Flags)
    requires f.sign == signed
    ensures var num, x := Converted(q, signed, v), ValueIn(q, signed, v);
      && Magnitude(num, f) == Abs(x)
      && (signed || q != 'L' ==> num == x)
  {
    if signed || q != 'L' {
      ConvertedFits(q, signed, v);
      OnlyValue(q, signed, v, Converted(q, signed, v));
      hide Converted, ValueIn;
    } else {
      OnlyValue(q, signed, v, v % TWO_64);
      hide ValueIn;
    }
  }

  // ---------- the parts of a directive ----------

  /** g is f with those flags set whose characters are in x. */
  ghost predicate FlagsSet(f: Flags, x: string, g: Flags) {
    && (g.left <==> f.left || '-' in x)
    && (g.plus <==> f.plus || '+' in x)
    && (g.space <==> f.space || ' ' in x)
    && (g.special <==> f.special || '#' in x)
    && (g.zeropad <==> f.zeropad || '0' in x)
    && g.sign == f.sign && g.large == f.large
  }

  lemma FlagIs(f: Flags, c: char)
    ensures IsFlag(c) <==> c in "-+ #0"
    ensures IsFlag(c) ==> FlagsSet(f, [c], WithFlag(f, c))
  {
    AmongFlags(c);
    assert forall e: char :: e in [c] <==> e == c;
  }

  lemma AmongFlags(c: char)
    ensures c in "-+ #0" <==> c == '-' || c == '+' || c == ' ' || c == '#' || c == '0'
  {
  }

  lemma InSlice(s: string, p: nat, n: nat, e: nat)
    requires p < e <= |s| && n == p + 1
    ensures forall c :: c in s[p..e] <==> c == s[p] || c in s[n..e]
  {
    assert s[p..e] == [s[p]] + s[n..e];
  }

  /** Flags are read up to the first character that is none, and each is set exactly if its
      character is among them. */
  lemma {:induction false} FlagsAre(s: string, p: nat, f: Flags)
    requires CString(s) && p < |s|
    ensures var (g, e) := FlagsAt(s, p, f);
      (forall k: nat | p <= k < e :: s[k] in "-+ #0") && s[e] !in "-+ #0" && FlagsSet(f, s[p..e], g)
    decreases |s| - p
  {
    var (g, e) := FlagsAt(s, p, f);
    FlagIs(f, s[p]);
    hide IsFlag, WithFlag;
    if IsFlag(s[p]) {
      var n := p + 1;
      FlagsAre(s, n, WithFlag(f, s[p]));
      InSlice(s, p, n, e);
      hide FlagsAt;
      assert FlagsSet(f, s[p..e], g);
    } else {
      FlagIs(f, s[e]);
      assert s[p..e] == "";
    }
  }

  // The digits in s from p on end at e.
  ghost predicate DigitRun(s: string, p: nat, e: nat) {
    p <= e < |s| && (forall k: nat | p <= k < e :: '0' <= s[k] <= '9') && !('0' <= s[e] <= '9')
  }

  // Digits before p have been read.
  lemma {:induction false} AtoiGoesOn(s: string, b: nat, p: nat, i: nat)
    requires CString(s) && b <= p < |s| && i == Denoted(s[b..p], 10)
    ensures var (n, e) := AtoiAt(s, p, i); DigitRun(s, p, e) && n == Denoted(s[b..e], 10)
    decreases |s| - p
  {
    if IsDigit(s[p]) {
      var n, j := p + 1, i * 10 + (s[p] as int - 48);
      assert s[b..n] == s[b..p] + [s[p]];
      DenotedMore(s[b..p], s[p], 10);
      assert DigitOf(s[p]) == s[p] as int - 48;
      hide Denoted, DigitOf;
      AtoiGoesOn(s, b, n, j);
      assert AtoiAt(s, p, i) == AtoiAt(s, n, j);
    }
  }

  /** skip_atoi reads the number that the longest run of decimal digits denotes. */
  lemma AtoiReads(s: string, p: nat)
    requires CString(s) && p < |s|
    ensures var (n, e) := AtoiAt(s, p, 0); DigitRun(s, p, e) && n == Denoted(s[p..e], 10)
  {
    assert s[p..p] == "";
    AtoiGoesOn(s, p, p, 0);
  }

  /** The width: a number, or for '*' the next argument, whose minus sign counts as flag -;
      -1 stands for none. */
  lemma WidthIs(s: string, p: nat, f: Flags, args: seq<Arg>)
    requires CString(s) && p < |s|
    ensures var d := WithWidth(s, p, f, args);
      && d.precision == -1 && d.qualifier == NUL
      && ('0' <= s[p] <= '9' ==>
          DigitRun(s, p, d.p) && d.width == Denoted(s[p..d.p], 10) && d.flags == f && d.args == args)
      && (!('0' <= s[p] <= '9') && s[p] != '*' ==> d == Directive(f, -1, -1, NUL, p, args))
    ensures s[p] == '*' && args != [] && args[0].Num? ==>
      var d, n := WithWidth(s, p, f, args), ValueIn(NUL, true, args[0].v);
      d == Directive(f.(left := f.left || n < 0), Abs(n), -1, NUL, p + 1, args[1..])
  {
    AtoiReads(s, p);
    hide AtoiAt, Denoted;
  }

  /** The precision behind a dot: a number, or for '*' the next argument. Without a number,
      or with a negative one, it is zero. */
  lemma PrecisionIs(s: string, d: Directive, n: nat)
    requires CString(s) && n == d.p + 1 < |s| && s[d.p] == '.'
    ensures var r := WithPrecision(s, d);
      && ('0' <= s[n] <= '9' ==> DigitRun(s, n, r.p) && r == d.(precision := Denoted(s[n..r.p], 10), p := r.p))
      && (!('0' <= s[n] <= '9') && s[n] != '*' ==> r == d.(precision := 0, p := n))
    ensures s[n] == '*' && d.args != [] && d.args[0].Num? ==>
      WithPrecision(s, d) == d.(precision := Max(0, ValueIn(NUL, true, d.args[0].v)), p := n + 1, args := d.args[1..])
  {
    if IsDigit(s[n]) {
      AtoiReads(s, n);
    } else if s[n] == '*' {
      hide AtoiAt;
      OnlyValue(NUL, true, NumAt(d.args), Signed(NumAt(d.args), TWO_32));
    }
    hide AtoiAt, Denoted, ValueIn;
  }

  /** The qualifier: one of h, l, L and Z, or ll, which counts as L. */
  lemma QualifierIs(s: string, d: Directive)
    requires CString(s) && d.p < |s|
    ensures s[d.p] !in "hlLZ" ==> WithQualifier(s, d) == d
    ensures s[d.p] in "hlLZ" ==> d.p + 1 < |s|
    ensures s[d.p] in "hLZ" || (s[d.p] == 'l' && s[d.p + 1] != 'l') ==>
      WithQualifier(s, d) == d.(qualifier := s[d.p], p := d.p + 1)
    ensures s[d.p] == 'l' && s[d.p + 1] == 'l' ==> WithQualifier(s, d) == d.(qualifier := 'L', p := d.p + 2)
  {
  }

  lemma OneRun(s: string, p: nat, e: nat, e': nat)
    requires DigitRun(s, p, e) && DigitRun(s, p, e')
    ensures e == e'
  {
  }

  lemma OneFlagRun(s: string, p: nat, e: nat, e': nat)
    requires p <= e < |s| && (forall k: nat | p <= k < e :: s[k] in "-+ #0") && s[e] !in "-+ #0"
    requires p <= e' < |s| && (forall k: nat | p <= k < e' :: s[k] in "-+ #0") && s[e'] !in "-+ #0"
    ensures e == e'
  {
  }

  lemma WrittenFlags(s: string, p: nat, a: nat)
    requires CString(s) && p <= a < |s| && (forall k: nat | p <= k < a :: s[k] in "-+ #0") && s[a] !in "-+ #0"
    ensures var x := s[p..a];
      FlagsAt(s, p, NO_FLAGS) == (Flags('0' in x, false, '+' in x, ' ' in x, '-' in x, '#' in x, false), a)
  {
    FlagsAre(s, p, NO_FLAGS);
    OneFlagRun(s, p, a, FlagsAt(s, p, NO_FLAGS).1);
    hide FlagsAt;
  }

  lemma WrittenWidth(s: string, a: nat, b: nat, f: Flags, args: seq<Arg>)
    requires CString(s) && DigitRun(s, a, b) && (a == b ==> s[a] != '*')
    ensures WithWidth(s, a, f, args) ==
      Directive(f, if a == b then -1 else Denoted(s[a..b], 10), -1, NUL, b, args)
  {
    WidthIs(s, a, f, args);
    hide WithWidth, Denoted;
    if a < b {
      OneRun(s, a, b, WithWidth(s, a, f, args).p);
    }
  }

  lemma WrittenPrecision(s: string, d: Directive, b: nat, n: nat, e: nat)
    requires CString(s) && d.p == b < |s| && d.precision == -1 && n == b + 1
    requires if s[b] == '.' then DigitRun(s, n, e) && (n == e ==> s[e] != '*') else b == e
    ensures WithPrecision(s, d) == d.(precision := if b == e then -1 else Denoted(s[n..e], 10), p := e)
  {
    if s[b] == '.' {
      PrecisionIs(s, d, n);
      hide WithPrecision;
      if n < e {
        OneRun(s, n, e, WithPrecision(s, d).p);
      } else {
        assert s[n..e] == "";
      }
    }
  }

  /** A directive of flags up to a, a width up to b, a dot and a precision up to e, and a
      qualifier, each of which may be missing: each flag is set exactly if its character is
      there, width and precision are the numbers that their digits denote, and a lone dot
      means precision zero. */
  lemma ParsesDirective(s: string, p: nat, a: nat, b: nat, n: nat, e: nat, args: seq<Arg>)
    requires CString(s) && p <= a < |s| && (forall k: nat | p <= k < a :: s[k] in "-+ #0") && s[a] !in "-+ #0"
    requires DigitRun(s, a, b) && (a == b ==> s[a] != '*') && n == b + 1
    requires if s[b] == '.' then DigitRun(s, n, e) && (n == e ==> s[e] != '*') else b == e
    ensures var d, x := DirectiveAt(s, p, args), s[p..a];
      && d.flags == Flags('0' in x, false, '+' in x, ' ' in x, '-' in x, '#' in x, false)
      && d.width == (if a == b then -1 else Denoted(s[a..b], 10))
      && d.precision == (if b == e then -1 else Denoted(s[n..e], 10))
      && d.args == args
      && (s[e] in "hlLZ" ==> e + 1 < |s|)
      && (if s[e] !in "hlLZ" then d.qualifier == NUL && d.p == e
          else if s[e] == 'l' && s[e + 1] == 'l' then d.qualifier == 'L' && d.p == e + 2
          else d.qualifier == s[e] && d.p == e + 1)
  {
    WrittenFlags(s, p, a);
    var (f, q) := FlagsAt(s, p, NO_FLAGS);
    WrittenWidth(s, a, b, f, args);
    var w := WithWidth(s, a, f, args);
    WrittenPrecision(s, w, b, n, e);
    var r := WithPrecision(s, w);
    QualifierIs(s, r);
    assert DirectiveAt(s, p, args) == WithQualifier(s, r);
    hide FlagsAt, WithWidth, WithPrecision, WithQualifier, Denoted;
  }

  /** No directive sets SIGN or LARGE: only a conversion does. */
  lemma NoSignYet(s: string, p: nat, args: seq<Arg>)
    requires CString(s) && p < |s|
    ensures var d := DirectiveAt(s, p, args); !d.flags.sign && !d.flags.large
  {
    FlagsAre(s, p, NO_FLAGS);
    var (f, q) := FlagsAt(s, p, NO_FLAGS);
    var w := WithWidth(s, q, f, args);
    assert w.flags == f || w.flags == f.(left := true);
    var r := WithPrecision(s, w);
    assert r.flags == w.flags;
    hide FlagsAt, WithWidth, WithPrecision, FlagsSet, AtoiAt;
  }

  // ---------- the text of a field ----------

  /** t is a field: the head, which is sign and prefix, and the digits, with zeros before
      them up to the precision. Up to the width it is filled with spaces behind the digits
      for flag -, else with zeros before the digits for flag 0, else with spaces in front. */
  ghost predicate Fills(t: string, head: string, digits: string, width: int, precision: int, f: Flags) {
    var zeros := Max(precision - |digits|, 0);
    var pad := Max(width - |head| - zeros - |digits|, 0);
    if f.left then t == head + Repeat('0', zeros) + digits + Repeat(' ', pad)
    else if f.zeropad then t == head + Repeat('0', pad + zeros) + digits
    else t == Repeat(' ', pad) + head + Repeat('0', zeros) + digits
  }

  lemma FieldParts(num: int64, base: nat, width: int, precision: int, f: Flags)
    requires 2 <= base <= 36
    ensures Fills(FieldText(num, base, width, precision, f), SignText(num, f) + Prefix(base, f),
                  Digits(Magnitude(num, f), base, f.large), width, precision, f)
  {
    var digits := Digits(Magnitude(num, f), base, f.large);
    var pad := Padding(num, base, width, precision, f);
    PartsInOrder(pad, f, SignText(num, f), Prefix(base, f), width, precision, digits);
    hide Digits, Magnitude, SignText, Prefix, WithField, Fills;
  }

  lemma PartsInOrder(pad: int, f: Flags, sign: string, prefix: string, width: int, precision: int, digits: string)
    requires pad == width - |sign| - |prefix| - Max(|digits|, precision)
    ensures Fills(WithField("", pad, f, sign, prefix, precision - |digits|, digits), sign + prefix, digits,
                  width, precision, f)
  {
    var z, n := Max(precision - |digits|, 0), Max(pad, 0);
    RepeatMax('0', precision - |digits|);
    RepeatMax(' ', pad);
    RepeatMax('0', pad);
    RepeatSum('0', n, z);
    RepeatNone();
    hide Repeat;
    NothingAdded(sign, prefix, Repeat(' ', n), Repeat('0', n), Repeat('0', z), digits);
    assert n == Max(width - |sign + prefix| - z - |digits|, 0);
  }

  // The three ways in which the padding is left out, with a and b the padding and z the zeros.
  lemma NothingAdded(sign: string, prefix: string, a: string, b: string, z: string, digits: string)
    ensures "" + "" + sign + prefix + "" + z + digits + a == sign + prefix + z + digits + a
    ensures "" + "" + sign + prefix + b + z + digits + "" == sign + prefix + (b + z) + digits
    ensures "" + a + sign + prefix + "" + z + digits + "" == a + (sign + prefix) + z + digits
  {
  }

  lemma RepeatNone()
    ensures Repeat(' ', 0) == "" && Repeat('0', 0) == ""
  {
  }

  lemma RepeatMax(c: char, n: int)
    ensures Repeat(c, n) == Repeat(c, Max(n, 0))
  {
  }

  lemma RepeatSum(c: char, m: nat, n: nat)
    ensures Repeat(c, m + n) == Repeat(c, m) + Repeat(c, n)
  {
  }

  // ---------- the conversions ----------

  /** The sign of a decimal number, if the conversion is a signed one: a plus sign or a space
      only before numbers that are not negative. */
  function Sign(c: char, x: int, f: Flags): string {
    if c != 'd' && c != 'i' then "" else if x < 0 then "-" else if f.plus then "+" else if f.space then " " else ""
  }

  /** What # puts before octal and hexadecimal numbers. */
  function BasePrefix(c: char, f: Flags): string {
    if !f.special then "" else if c == 'o' then "0" else if c == 'x' then "0x" else if c == 'X' then "0X" else ""
  }

  // The base of a conversion.
  function Base(c: char): nat {
    if c == 'o' then 8 else if c == 'x' || c == 'X' then 16 else 10
  }

  lemma IntegerIs(c: char, f: Flags)
    requires c in "diuoxX" && !f.sign && !f.large
    ensures IsInteger(c) && c !in "csp%n" && BaseOf(c) == Base(c)
    ensures FlagsFor(c, f) == f.(sign := c in "di", large := c == 'X')
  {
  }

  lemma HeadIs(c: char, num: int64, x: int, f: Flags, g: Flags)
    requires g == f.(sign := c in "di", large := c == 'X') && (c in "di" ==> num == x)
    ensures SignText(num, g) == Sign(c, x, f) && Prefix(Base(c), g) == BasePrefix(c, f)
  {
  }

  lemma IntegerRound(c: char, d: Directive)
    requires IsInteger(c)
    ensures ConversionAt(c, d) == Round(IntegerText(c, NumAt(d.args), d), d.p + 1, Rest(d.args))
  {
    hide IntegerText;
  }

  lemma IntegerTextIs(c: char, v: int, d: Directive, g: Flags, num: int64)
    requires g == FlagsFor(c, d.flags) && num == Converted(d.qualifier, g.sign, v)
    ensures IntegerText(c, v, d) == FieldText(num, BaseOf(c), d.width, d.precision, g)
  {
    hide FieldText, Converted;
  }

  // Only the flags - and 0 count for the layout.
  lemma SameFill(t: string, head: string, digits: string, width: int, precision: int, f: Flags, g: Flags)
    requires f.left == g.left && f.zeropad == g.zeropad && Fills(t, head, digits, width, precision, g)
    ensures Fills(t, head, digits, width, precision, f)
  {
  }

  lemma FirstArgument(args: seq<Arg>, v: int)
    requires args != [] && args[0] == Num(v)
    ensures NumAt(args) == v && Rest(args) == args[1..]
  {
  }

  /** %d, %i, %u, %o, %x and %X: a field of the value that the argument has in its type, with
      the numeral of its absolute value in base 10, 8 or 16, in capitals for %X. */
  lemma PrintsInteger(c: char, d: Directive, v: int, digits: string)
    requires c in "diuoxX" && !d.flags.sign && !d.flags.large && d.args != [] && d.args[0] == Num(v)
    requires Numeral(digits, Abs(ValueIn(d.qualifier, c in "di", v)), Base(c), c == 'X')
    ensures var r, x := ConversionAt(c, d), ValueIn(d.qualifier, c in "di", v);
      && Fills(r.text, Sign(c, x, d.flags) + BasePrefix(c, d.flags), digits, d.width, d.precision, d.flags)
      && r.next == d.p + 1 && r.args == d.args[1..]
  {
    IntegerIs(c, d.flags);
    FirstArgument(d.args, v);
    assert 2 <= Base(c) <= 36;
    var g := FlagsFor(c, d.flags);
    var x, num := ValueIn(d.qualifier, g.sign, v), Converted(d.qualifier, g.sign, v);
    hide *;
    IntegerRound(c, d);
    IntegerTextIs(c, v, d, g, num);
    ConvertedIs(d.qualifier, g.sign, v, g);
    NumeralIs(digits, Abs(x), Base(c), g.large);
    FieldParts(num, Base(c), d.width, d.precision, g);
    HeadIs(c, num, x, d.flags, g);
    SameFill(IntegerText(c, v, d), Sign(c, x, d.flags) + BasePrefix(c, d.flags), digits,
             d.width, d.precision, d.flags, g);
  }

  /** %p: a field of the address in base 16, by default of eight characters and with zeros
      before the digits. */
  lemma PrintsPointer(d: Directive, v: int, digits: string)
    requires !d.flags.sign && !d.flags.large && d.args != [] && d.args[0] == Num(v)
    requires Numeral(digits, ValueIn(NUL, false, v), 16, false)
    ensures var r, f := ConversionAt('p', d), if d.width == -1 then d.flags.(zeropad := true) else d.flags;
      && Fills(r.text, if f.special then "0x" else "", digits, if d.width == -1 then 8 else d.width, d.precision, f)
      && r.next == d.p + 1 && r.args == d.args[1..]
  {
    var f := if d.width == -1 then d.flags.(zeropad := true) else d.flags;
    var x, width := ValueIn(NUL, false, v), if d.width == -1 then 8 else d.width;
    FirstArgument(d.args, v);
    assert Magnitude(x, f) == x && SignText(x, f) == "" && Prefix(16, f) == if f.special then "0x" else "";
    assert Unsigned(v, TWO_32) == x by { OnlyValue(NUL, false, v, v % TWO_32); }
    NumeralIs(digits, x, 16, false);
    FieldParts(x, 16, width, d.precision, f);
    hide Fills, FieldText, Digits, Magnitude, ValueIn, SignText, Prefix, Unsigned;
    assert "" + Prefix(16, f) == Prefix(16, f);
  }

  /** t is x, filled up to the width with spaces behind it for flag -, else before it. */
  ghost predicate Padded(t: string, x: string, d: Directive) {
    t == if d.flags.left then x + Repeat(' ', d.width - |x|) else Repeat(' ', d.width - |x|) + x
  }

  lemma {:induction false} StrNLenIs(s: string, count: int)
    ensures var n := StrNLen(s, count);
      && (forall k: nat | k < n :: s[k] != NUL) && (count >= 0 ==> n <= count)
      && (n == |s| || s[n] == NUL || n == count)
    decreases |s|
  {
    if count != 0 && s != "" && s[0] != NUL {
      var n := StrNLen(s, count);
      StrNLenIs(s[1..], count - 1);
      assert forall k: nat | 0 < k < n :: s[k] == s[1..][k - 1];
      assert n < |s| ==> s[n] == s[1..][n - 1];
    }
  }

  lemma SpacesAround(x: string, d: Directive)
    ensures Padded(Repeat(' ', if d.flags.left then 0 else d.width - |x|) + x
                   + Repeat(' ', if d.flags.left then d.width - |x| else 0), x, d)
  {
    RepeatNone();
    NothingBeside(Repeat(' ', d.width - |x|), x);
    hide Repeat;
  }

  lemma NothingBeside(a: string, x: string)
    ensures "" + x + a == x + a && a + x + "" == a + x
  {
  }

  /** %s: as much of the string as stands before its first NUL and as the precision allows;
      "<NULL>" stands for a null pointer. */
  lemma PrintsString(d: Directive, s: string)
    requires d.args != [] && (d.args[0] == Str(s) || (d.args[0] == NullStr && s == "<NULL>"))
    ensures var r, n := ConversionAt('s', d), StrNLen(s, d.precision);
      && Padded(r.text, s[..n], d)
      && (forall k: nat | k < n :: s[k] != NUL) && (d.precision >= 0 ==> n <= d.precision)
      && (n == |s| || s[n] == NUL || n == d.precision)
      && r.next == d.p + 1 && r.args == d.args[1..]
  {
    var n := StrNLen(s, d.precision);
    StrNLenIs(s, d.precision);
    SpacesAround(s[..n], d);
    assert StrAt(d.args) == s && |s[..n]| == n;
    hide StrNLen, Repeat, Padded;
  }

  /** %c: the character of the argument's lower eight bits. */
  lemma PrintsChar(d: Directive, v: int, c: char)
    requires d.args != [] && d.args[0] == Num(v) && c as int < 256 && (v - c as int) % 256 == 0
    ensures var r := ConversionAt('c', d);
      Padded(r.text, [c], d) && r.next == d.p + 1 && r.args == d.args[1..]
  {
    SpacesAround([c], d);
    assert (v % 256) as char == c;
    hide Repeat, Padded;
  }

  /** %n prints nothing, %% a percent sign, and what is no conversion is printed with its
      percent sign; at the end of the format that is the percent sign alone. */
  lemma PrintsOthers(c: char, d: Directive)
    requires c !in "cspdiuoxX"
    ensures var r := ConversionAt(c, d);
      && (c == 'n' ==> r.text == "" && r.next == d.p + 1 && (d.args != [] ==> r.args == d.args[1..]))
      && (c == '%' ==> r.text == "%" && r.next == d.p + 1 && r.args == d.args)
      && (c == NUL ==> r.text == "%" && r.next == d.p && r.args == d.args)
      && (c != 'n' && c != '%' && c != NUL ==> r.text == "%" + [c] && r.next == d.p + 1 && r.args == d.args)
  {
  }

  /** A plain %d anywhere in a format prints a 32-bit number as a minus sign, if it is
      negative, and the numeral of its absolute value. */
  lemma PlainDecimal(fmt: string, p: nat, args: seq<Arg>, v: int, digits: string)
    requires CString(fmt) && p + 1 < |fmt| && fmt[p] == '%' && fmt[p + 1] == 'd'
    requires args != [] && args[0] == Num(v) && -0x8000_0000 <= v < 0x8000_0000 && Numeral(digits, Abs(v), 10, false)
    ensures RoundAt(fmt, p, args) == Round((if v < 0 then "-" else "") + digits, p + 2, args[1..])
  {
    var q := p + 1;
    assert 'd' !in "-+ #0" && 'd' !in "hlLZ" && fmt[q..q] == "" && 'd' in "diuoxX" && 'd' in "di";
    ParsesDirective(fmt, q, q, q, p + 2, q, args);
    var d := DirectiveAt(fmt, q, args);
    assert ValueIn(NUL, true, v) == v;
    hide *;
    RoundIs(fmt, p, args);
    PrintsInteger('d', d, v, digits);
    NothingToFill(ConversionAt('d', d).text, Sign('d', v, d.flags) + BasePrefix('d', d.flags), digits, d.flags);
    assert Sign('d', v, d.flags) + BasePrefix('d', d.flags) == if v < 0 then "-" else "" by {
      PlainHead(v, d.flags);
    }
  }

  lemma PlainHead(v: int, f: Flags)
    requires f == Flags(false, false, false, false, false, false, false)
    ensures Sign('d', v, f) + BasePrefix('d', f) == if v < 0 then "-" else ""
  {
  }

  lemma NothingToFill(t: string, head: string, digits: string, f: Flags)
    requires Fills(t, head, digits, -1, -1, f)
    ensures t == head + digits
  {
    RepeatNone();
  }

  // ---------- literal text ----------

  predicate Literally(c: char) {
    c != '%' && c != NUL
  }

  lemma LiteralStep(fmt: string, p: nat, n: nat, args: seq<Arg>)
    requires CString(fmt) && n == p + 1 && p < |fmt| && Literally(fmt[p])
    ensures n < |fmt| && Formatted(fmt, p, args) == [fmt[p]] + Formatted(fmt, n, args)
  {
    RoundIs(fmt, p, args);
    NextRound(fmt, p, args);
    hide Formatted, RoundAt;
  }

  /** What is no directive is printed as it stands. */
  lemma {:induction false} LiteralPrints(fmt: string, p: nat, q: nat, args: seq<Arg>)
    requires CString(fmt) && p <= q < |fmt| && forall k: nat | p <= k < q :: Literally(fmt[k])
    ensures Formatted(fmt, p, args) == fmt[p..q] + Formatted(fmt, q, args)
    decreases q - p
  {
    if p < q {
      var n := p + 1;
      assert Literally(fmt[p]);
      LiteralStep(fmt, p, n, args);
      LiteralPrints(fmt, n, q, args);
      hide Formatted;
      assert fmt[p..q] == [fmt[p]] + fmt[n..q];
      Associative([fmt[p]], fmt[n..q], Formatted(fmt, q, args));
    } else {
      assert fmt[p..q] == "";
      NothingBefore(Formatted(fmt, q, args));
    }
  }

  /** A message with one %d in it, such as that of the tasks of init/main.c: the text up to q,
      the number, and the text from n up to the end of the format. */
  lemma PrintsMessage(fmt: string, q: nat, n: nat, e: nat, args: seq<Arg>, v: int, digits: string)
    requires CString(fmt) && n == q + 2 <= e < |fmt| && fmt[q] == '%' && fmt[q + 1] == 'd' && fmt[e] == NUL
    requires (forall k: nat | k < q :: Literally(fmt[k])) && forall k: nat | n <= k < e :: Literally(fmt[k])
    requires args != [] && args[0] == Num(v) && -0x8000_0000 <= v < 0x8000_0000 && Numeral(digits, Abs(v), 10, false)
    ensures Formatted(fmt, 0, args) == fmt[..q] + ((if v < 0 then "-" else "") + digits) + fmt[n..e]
  {
    var text := (if v < 0 then "-" else "") + digits;
    LiteralPrints(fmt, 0, q, args);
    PlainDecimal(fmt, q, args, v, digits);
    NextRound(fmt, q, args);
    LiteralPrints(fmt, n, e, args[1..]);
    assert Formatted(fmt, e, args[1..]) == "";
    hide Formatted, RoundAt, Numeral;
    assert fmt[n..e] + "" == fmt[n..e] && fmt[0..q] == fmt[..q];
    Associative(fmt[..q], text, fmt[n..e]);
  }
}
