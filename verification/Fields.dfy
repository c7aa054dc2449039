/** vsscanf (lib/vsprintf.c, lines 517-695) reads back what vsnprintf (lines 231-457)
    prints for the same format, field by field. */
module Fields {
  import opened Ctype
  import opened Output
  import opened Number
  import opened Parse
  import opened RoundTrip
  import opened Printf
  import opened Conversions
  import opened Scanf
  import opened ScanLaws
  import opened FormatLaws

  /** An integer directive and its argument. spec is what stands before the qualifier:
      flags, width and precision, as long as they are written out. */
  datatype Field = Field(spec: string, q: string, c: char, v: int)

  predicate SpecChar(c: char) {
    IsFlag(c) || IsDigit(c) || c == '.'
  }

  function DirectiveOf(f: Field): string {
    "%" + f.spec + f.q + [f.c]
  }

  // The directive as vsnprintf takes it apart.
  function Taken(f: Field): Directive {
    DirectiveAt(DirectiveOf(f) + [NUL], 1, [])
  }

  /** vsnprintf finds the conversion character where it stands. So spec has the form that
      it expects: flags, then a width, then a precision. */
  predicate IsField(f: Field) {
    && (forall c | c in f.spec :: SpecChar(c))
    && (f.q == "" || f.q == "h" || f.q == "l" || f.q == "ll" || f.q == "L" || f.q == "Z") && IsInteger(f.c)
    && Taken(f).p == 1 + |f.spec| + |f.q|
  }

  /** Of these, vsscanf takes the width only, with leading zeros: its digits. */
  predicate DigitsOnly(s: string) {
    forall c | c in s :: IsDigit(c)
  }

  // The qualifier as vsnprintf notes it.
  function Noted(f: Field): char
    requires IsField(f)
  {
    if f.q == "" then NUL else if f.q == "ll" then 'L' else f.q[0]
  }

  predicate IsSigned(f: Field) {
    f.c == 'd' || f.c == 'i'
  }

  function FlagsOf(f: Field): Flags {
    FlagsFor(f.c, NO_FLAGS)
  }

  // What vsnprintf hands to number.
  function Bits(f: Field): int64
    requires IsField(f)
  {
    Converted(Noted(f), IsSigned(f), f.v)
  }

  /** The value that the argument has in the type the directive names. */
  function ValueOf(f: Field): int
    requires IsField(f)
  {
    ValueIn(Noted(f), IsSigned(f), f.v)
  }

  /** The argument is a value of that type, and so the value is the argument itself. */
  predicate InRange(f: Field)
    requires IsField(f)
  {
    Fits(Noted(f), IsSigned(f), f.v)
  }

  function TextOf(f: Field): string {
    IntegerText(f.c, f.v, Taken(f))
  }

  // A space before what follows, if anything does.
  function Spaced(s: string): string {
    if s == "" then "" else " " + s
  }

  /** The fields separated by single spaces: their format, their arguments, their text. */
  function FormatOf(fs: seq<Field>): string {
    if fs == [] then "" else DirectiveOf(fs[0]) + Spaced(FormatOf(fs[1..]))
  }

  function ArgsOf(fs: seq<Field>): seq<Arg> {
    if fs == [] then [] else [Num(fs[0].v)] + ArgsOf(fs[1..])
  }

  function Printed(fs: seq<Field>): string {
    if fs == [] then "" else TextOf(fs[0]) + Spaced(Printed(fs[1..]))
  }

  // ---------- printing ----------

  lemma NoNul(f: Field)
    requires IsField(f)
    ensures NUL !in DirectiveOf(f) && '*' !in DirectiveOf(f) + [NUL]
  {
    assert !SpecChar(NUL) && !SpecChar('*');
    hide DirectiveAt, SpecChar;
  }

  // Without a '*', parsing takes no argument.
  lemma TakesNoArgument(s: string, p: nat, args: seq<Arg>)
    requires CString(s) && p < |s| && '*' !in s
    ensures DirectiveAt(s, p, args) == DirectiveAt(s, p, []).(args := args)
  {
    var (f, q) := FlagsAt(s, p, NO_FLAGS);
    var d, d' := WithWidth(s, q, f, args), WithWidth(s, q, f, []);
    assert s[q] in s && d == d'.(args := args);
    var r, r' := WithPrecision(s, d), WithPrecision(s, d');
    assert s[d.p] == '.' ==> s[d.p + 1] in s;
    assert r == r'.(args := args);
    hide FlagsAt, WithWidth, WithPrecision;
  }

  // The text depends on flags, width, precision and qualifier only.
  lemma SameInteger(c: char, v: int, d: Directive, args: seq<Arg>)
    ensures IntegerText(c, v, d.(args := args)) == IntegerText(c, v, d)
  {
    hide FieldText, Converted;
  }

  lemma {:induction false} PrintsField(f: Field, args: seq<Arg>)
    requires IsField(f) && args != [] && args[0] == Num(f.v) && NUL !in DirectiveOf(f)
    ensures var s := DirectiveOf(f) + [NUL];
      && Complete(s, 0, args)
      && Formatted(s, 0, args) == TextOf(f)
      && Unused(s, 0, args) == args[1..]
  {
    var s := DirectiveOf(f) + [NUL];
    var n := |DirectiveOf(f)|;
    RoundOfField(f, args);
    assert Embedded(s, s, n, 0) && s[0] == '%';
    CompleteRound(s, n, 0, args);
    NextRound(s, 0, args);
    hide *;
    AtEnd(s, n, args[1..]);
    assert TextOf(f) + "" == TextOf(f);
  }

  lemma RoundOfField(f: Field, args: seq<Arg>)
    requires IsField(f) && args != [] && args[0] == Num(f.v)
    ensures var s, n := DirectiveOf(f) + [NUL], |DirectiveOf(f)|;
      && s[0] == '%' && DirectiveAt(s, 1, args).p < n
      && RoundAt(s, 0, args) == Round(TextOf(f), n, args[1..])
  {
    var s := DirectiveOf(f) + [NUL];
    NoNul(f);
    TakesNoArgument(s, 1, args);
    var d := DirectiveAt(s, 1, args);
    assert s[d.p] == f.c && f.c != NUL && s[0] == '%' && d == Taken(f).(args := args);
    SameInteger(f.c, f.v, Taken(f), args);
    var n := |DirectiveOf(f)|;
    assert IsInteger(f.c) && d.p + 1 == n && args[1..] == Rest(args) && NumAt(args) == f.v;
    RoundIs(s, 0, args);
    assert RoundAt(s, 0, args) == ConversionAt(f.c, d);
    IntegerRound(f.c, d);
    hide *;
  }

  lemma PrintsSpace(args: seq<Arg>)
    ensures Complete(" " + [NUL], 0, args) && Formatted(" " + [NUL], 0, args) == " "
    ensures Unused(" " + [NUL], 0, args) == args
  {
    var s := " " + [NUL];
    assert s[0] == ' ' && s[1] == NUL;
    AtEnd(s, 1, args);
    assert RoundAt(s, 0, args) == Round(" ", 1, args);
  }

  lemma NotEmpty(f: Field)
    ensures TextOf(f) != ""
  {
    var d := Taken(f);
    var g := FlagsFor(f.c, d.flags);
    FieldLength(Converted(d.qualifier, g.sign, f.v), BaseOf(f.c), d.width, d.precision, g);
    hide DirectiveAt, FieldText, Converted, Magnitude;
  }

  // A field, and a format behind it.
  lemma PrintsThen(f: Field, tail: string, args: seq<Arg>)
    requires IsField(f) && NUL !in tail
    ensures NUL !in DirectiveOf(f) + tail
    ensures Text(DirectiveOf(f) + tail, [Num(f.v)] + args) == TextOf(f) + Text(tail, args)
  {
    var all := [Num(f.v)] + args;
    NoNul(f);
    PrintsField(f, all);
    assert all[1..] == args;
    ConcatenationOf(DirectiveOf(f), tail, all);
    hide DirectiveOf, TextOf, Complete, Unused;
  }

  /** vsnprintf prints the texts of the fields, separated by spaces. */
  lemma {:induction false} PrintsFields(fs: seq<Field>)
    requires forall f | f in fs :: IsField(f)
    ensures NUL !in FormatOf(fs) && Text(FormatOf(fs), ArgsOf(fs)) == Printed(fs)
    decreases |fs|
  {
    if fs == [] {
      assert FormatOf(fs) + [NUL] == [NUL];
    } else {
      PrintsFields(fs[1..]);
      PrintsTail(fs[1..]);
      PrintsThen(fs[0], Spaced(FormatOf(fs[1..])), ArgsOf(fs[1..]));
      hide Text, TextOf, DirectiveOf, Spaced;
    }
  }

  lemma PrintsTail(fs: seq<Field>)
    requires forall f | f in fs :: IsField(f)
    requires NUL !in FormatOf(fs) && Text(FormatOf(fs), ArgsOf(fs)) == Printed(fs)
    ensures NUL !in Spaced(FormatOf(fs)) && Text(Spaced(FormatOf(fs)), ArgsOf(fs)) == Spaced(Printed(fs))
  {
    if fs != [] {
      NotEmpty(fs[0]);
      assert FormatOf(fs) != "" && Printed(fs) != "";
      PrintsSpace(ArgsOf(fs));
      ConcatenationOf(" ", FormatOf(fs), ArgsOf(fs));
    }
  }

  // ---------- what a width of digits prints ----------

  lemma {:induction false} FlagsOverDigits(s: string, p: nat, e: nat, f: Flags)
    requires CString(s) && p <= e < |s| && !IsFlag(s[e]) && forall k: nat | p <= k < e :: IsDigit(s[k])
    ensures var (g, j) := FlagsAt(s, p, f);
      p <= j <= e && g == f.(zeropad := f.zeropad || (p < e && s[p] == '0'))
    decreases e - p
  {
    if p < e && s[p] == '0' {
      FlagsOverDigits(s, p + 1, e, WithFlag(f, s[p]));
    }
  }

  lemma {:induction false} AtoiOverDigits(s: string, p: nat, e: nat, i: nat)
    requires CString(s) && p <= e < |s| && !IsDigit(s[e]) && forall k: nat | p <= k < e :: IsDigit(s[k])
    ensures AtoiAt(s, p, i).1 == e
    decreases e - p
  {
    if p < e {
      AtoiOverDigits(s, p + 1, e, i * 10 + (s[p] as int - 48));
    }
  }

  // The character behind spec begins the qualifier or is the conversion.
  lemma BehindSpec(f: Field)
    requires IsField(f)
    ensures var s, e := DirectiveOf(f) + [NUL], 1 + |f.spec|;
      && e < |s| - 1 && s[e] == (f.q + [f.c])[0] && !SpecChar(s[e]) && s[e] != '*'
      && s[e..] == f.q + [f.c, NUL]
      && (forall k: nat | 1 <= k < e :: s[k] == f.spec[k - 1] && s[k] in f.spec)
  {
    hide DirectiveAt;
  }

  /** A spec of digits is a width, padded with zeros if it begins with one. */
  lemma TakesDigits(f: Field)
    requires IsField(f) && DigitsOnly(f.spec)
    ensures var d := Taken(f);
      && d.flags == NO_FLAGS.(zeropad := f.spec != "" && f.spec[0] == '0')
      && d.precision == -1 && d.qualifier == Noted(f)
  {
    var s, e := DirectiveOf(f) + [NUL], 1 + |f.spec|;
    BehindSpec(f);
    var (g, j) := FlagsAt(s, 1, NO_FLAGS);
    FlagsOverDigits(s, 1, e, NO_FLAGS);
    var d := WithWidth(s, j, g, []);
    WidthOverDigits(s, j, e, g);
    QualifierTaken(s, e, d, f);
    assert Taken(f) == WithQualifier(s, WithPrecision(s, d));
    hide FlagsAt, WithWidth, WithPrecision, WithQualifier, AtoiAt, IsField, SpecChar;
  }

  lemma WidthOverDigits(s: string, p: nat, e: nat, f: Flags)
    requires CString(s) && p <= e < |s| && !IsDigit(s[e]) && s[e] != '*' && forall k: nat | p <= k < e :: IsDigit(s[k])
    ensures var d := WithWidth(s, p, f, []);
      d.p == e && d.flags == f && d.precision == -1 && d.qualifier == NUL
  {
    AtoiOverDigits(s, p, e, 0);
    hide AtoiAt;
  }

  lemma QualifierTaken(s: string, e: nat, d: Directive, f: Field)
    requires IsField(f) && CString(s) && e < |s| && s[e..] == f.q + [f.c, NUL] && d.p == e && d.qualifier == NUL
    ensures var r := WithQualifier(s, WithPrecision(s, d));
      r.qualifier == Noted(f) && r.flags == d.flags && r.precision == d.precision
  {
    var y := f.q + [f.c, NUL];
    assert s[e] == s[e..][0] == y[0] && s[e + 1] == s[e..][1] == y[1];
    hide Taken, SpecChar;
    assert s[e] != '.';
    assert WithPrecision(s, d) == d;
    hide WithPrecision;
  }

  /** What is printed for it: spaces or zeros that fill the width, the sign before the zeros,
      and the digits. */
  lemma PaddedText(num: int64, base: nat, width: int, f: Flags)
    requires 2 <= base <= 36 && !f.left && !f.plus && !f.space && !f.special
    ensures var pad, digits := Padding(num, base, width, -1, f), Digits(Magnitude(num, f), base, f.large);
      FieldText(num, base, width, -1, f) ==
        Repeat(' ', if f.zeropad then 0 else pad)
        + (SignText(num, f) + Repeat('0', if f.zeropad then pad else 0) + digits)
  {
    var pad, digits := Padding(num, base, width, -1, f), Digits(Magnitude(num, f), base, f.large);
    assert Repeat('0', -1 - |digits|) == "" && Repeat(' ', 0) == "" && Prefix(base, f) == "";
    var a, b := Repeat(' ', if f.zeropad then 0 else pad), SignText(num, f);
    var z := Repeat('0', if f.zeropad then pad else 0);
    assert FieldText(num, base, width, -1, f) == "" + a + b + "" + z + "" + digits + "";
    hide Padding, Digits, Magnitude, SignText, Repeat, FieldText;
    ThreeParts(a, b, z, digits);
  }

  lemma ThreeParts(a: string, b: string, z: string, d: string)
    ensures "" + a + b + "" + z + "" + d + "" == a + (b + z + d)
  {
  }

  function DigitsOf(f: Field): string
    requires IsField(f)
  {
    Digits(Magnitude(Bits(f), FlagsOf(f)), BaseOf(f.c), f.c == 'X')
  }

  // How many characters are missing to the width.
  function Missing(f: Field): int
    requires IsField(f)
  {
    Taken(f).width - (if IsSigned(f) && Bits(f) < 0 then 1 else 0) - |DigitsOf(f)|
  }

  predicate ZeroFilled(f: Field) {
    f.spec != "" && f.spec[0] == '0'
  }

  // The text without the spaces before it.
  function Core(f: Field): string
    requires IsField(f)
  {
    (if IsSigned(f) && Bits(f) < 0 then "-" else "") + Repeat('0', if ZeroFilled(f) then Missing(f) else 0)
    + DigitsOf(f)
  }

  function Spaces(f: Field): string
    requires IsField(f)
  {
    Repeat(' ', if ZeroFilled(f) then 0 else Missing(f))
  }

  lemma TextIs(f: Field)
    requires IsField(f) && DigitsOnly(f.spec)
    ensures TextOf(f) == Spaces(f) + Core(f)
  {
    TakesDigits(f);
    var d := Taken(f);
    var g := FlagsFor(f.c, d.flags);
    var num := Converted(d.qualifier, g.sign, f.v);
    assert num == Bits(f) && g == FlagsOf(f).(zeropad := ZeroFilled(f));
    hide Taken, Converted, Digits, Bits;
    assert Magnitude(num, g) == Magnitude(num, FlagsOf(f));
    PaddedText(num, BaseOf(f.c), d.width, g);
    assert Padding(num, BaseOf(f.c), d.width, -1, g) == Missing(f);
    hide FieldText, Repeat;
  }

  // The first digit is one of "0" to "f" or "F".
  lemma {:induction false} FirstChar(m: nat, base: nat, large: bool)
    requires 2 <= base <= 16
    ensures var c := Digits(m, base, large)[0]; !IsSpace(c) && c != NUL && c != '-' && (base <= 10 ==> IsDigit(c))
    decreases m
  {
    if m < base {
      DigitAccepted(m, large);
    } else {
      DigitsSplit(m, base, large);
      FirstChar(m / base, base, large);
    }
  }

  lemma CoreFirst(f: Field)
    requires IsField(f)
    ensures var t := Core(f); t != "" && !IsSpace(t[0]) && t[0] != NUL
    ensures Core(f)[0] == if IsSigned(f) && Bits(f) < 0 then '-'
                          else if ZeroFilled(f) && Missing(f) > 0 then '0' else DigitsOf(f)[0]
    ensures f.c != 'x' && f.c != 'X' ==> IsDigit(DigitsOf(f)[0])
  {
    FirstChar(Magnitude(Bits(f), FlagsOf(f)), BaseOf(f.c), f.c == 'X');
    hide Converted, Digits, Magnitude, Missing, Taken;
  }

  /** The most significant digit. */
  function Leading(m: nat, base: nat): nat
    requires 2 <= base <= 36
    decreases m
  {
    if m < base then m else
      Smaller(m, base);
      Leading(m / base, base)
  }

  lemma {:induction false} LeadingDigit(m: nat, base: nat, large: bool)
    requires 2 <= base <= 36
    ensures Leading(m, base) < base && Digits(m, base, large)[0] == DigitChar(Leading(m, base), large)
    decreases m
  {
    if m >= base {
      DigitsSplit(m, base, large);
      LeadingDigit(m / base, base, large);
    }
  }

  // The number printed for a field that is not negative is the value of its argument.
  lemma FieldValue(f: Field)
    requires IsField(f)
    ensures IsSigned(f) ==> Bits(f) == ValueOf(f)
    ensures ValueOf(f) >= 0 ==> Magnitude(Bits(f), FlagsOf(f)) == ValueOf(f)
    ensures ValueOf(f) < if Noted(f) == 'L' then TWO_64 else if Noted(f) == 'h' then TWO_16 else TWO_32
    ensures IsSigned(f) ==> ValueOf(f) < if Noted(f) == 'L' then TWO_63 else if Noted(f) == 'h' then 0x8000
                                         else if Noted(f) == 'Z' then TWO_32 else 0x8000_0000
    ensures !IsSigned(f) ==> ValueOf(f) >= 0
  {
    ConvertedIs(Noted(f), IsSigned(f), f.v, FlagsOf(f));
    hide Taken, SpecChar, Converted, ValueIn, Magnitude;
  }

  // ---------- which fields come back ----------

  // A text from its first character on that is no space.
  function BehindSpaces(t: string): string {
    if t != "" && t[0] == ' ' then BehindSpaces(t[1..]) else t
  }

  lemma {:induction false} BehindSpacesIs(k: int, t: string)
    requires t != "" && t[0] != ' '
    ensures BehindSpaces(Repeat(' ', k) + t) == t
    decreases k
  {
    if k > 0 {
      var x := Repeat(' ', k) + t;
      assert x[1..] == Repeat(' ', k - 1) + t;
      BehindSpacesIs(k - 1, t);
    } else {
      assert Repeat(' ', k) + t == t;
    }
  }

  /** vsscanf knows the directive, and the text begins with a decimal digit, behind spaces. */
  predicate Readable(f: Field)
    requires IsField(f)
  {
    DigitsOnly(f.spec) && f.q != "ll" && BehindSpaces(TextOf(f)) != "" && IsDigit(BehindSpaces(TextOf(f))[0])
  }

  lemma ReadableCore(f: Field)
    requires IsField(f)
    ensures Readable(f) <==> DigitsOnly(f.spec) && f.q != "ll" && Core(f) != "" && IsDigit(Core(f)[0])
  {
    if DigitsOnly(f.spec) {
      TextIs(f);
      CoreFirst(f);
      BehindSpacesIs(if ZeroFilled(f) then 0 else Missing(f), Core(f));
    }
    hide TextOf, Core, Spaces, BehindSpaces;
  }

  // When the first digit of an unsigned field is a decimal one.
  lemma HexFirst(f: Field)
    requires IsField(f) && !IsSigned(f)
    ensures DigitsOf(f) != "" && DigitsOf(f) == Digits(ValueOf(f), BaseOf(f.c), f.c == 'X')
    ensures IsDigit(DigitsOf(f)[0]) <==> Leading(ValueOf(f), BaseOf(f.c)) < 10
  {
    FieldValue(f);
    LeadingDigit(ValueOf(f), BaseOf(f.c), f.c == 'X');
    DigitAccepted(Leading(ValueOf(f), BaseOf(f.c)), f.c == 'X');
    hide Converted, Digits, Magnitude, ValueOf, Leading, DigitChar, Taken;
  }

  /** What vsscanf recovers of the fields that have no more than a width, and another
      qualifier than "ll": all octal and unsigned decimal ones; the hexadecimal ones whose
      leading digit is below ten or that are filled up with zeros; and the signed ones that
      are not negative. With other flags or a precision, or with "ll", it recovers none. */
  lemma WhatIsReadable(f: Field)
    requires IsField(f)
    ensures !DigitsOnly(f.spec) || f.q == "ll" ==> !Readable(f)
    ensures DigitsOnly(f.spec) && f.q != "ll" ==>
      (Readable(f) <==>
        if IsSigned(f) then ValueOf(f) >= 0
        else if f.c == 'o' || f.c == 'u' then true
        else Leading(ValueOf(f), 16) < 10
             || (ZeroFilled(f) && Taken(f).width > |Digits(ValueOf(f), 16, f.c == 'X')|))
  {
    FieldValue(f);
    ReadableCore(f);
    CoreFirst(f);
    if !IsSigned(f) {
      HexFirst(f);
    }
    hide Readable, Core, Leading, IsDigit, Taken, Digits, ZeroFilled, Bits, ValueOf;
  }

  // ---------- reading one field ----------

  lemma WrapsToSelf(m: nat, modulus: nat)
    requires m < modulus
    ensures m % modulus == m
  {
    QuotientUnique(m, modulus, 0, m);
  }

  // Behind a field, a reader stops.
  predicate AfterField(c: char) {
    c == ' ' || c == NUL
  }

  // The text x stands in s from p to q.
  ghost predicate Stands(s: string, p: nat, q: nat, x: string) {
    p <= q <= |s| && s[p..q] == x
  }

  lemma StandsAt(s: string, p: nat, q: nat, x: string, k: nat)
    requires Stands(s, p, q, x) && k < |x|
    ensures q == p + |x| && s[p + k] == x[k]
  {
  }

  lemma StandsFirst(s: string, p: nat, q: nat, x: string)
    requires Stands(s, p, q, x) && x != ""
    ensures p < q <= |s| && s[p] == x[0]
  {
  }

  lemma {:induction false} ZerosBefore(z: int, t: string, base: nat)
    ensures Value(Repeat('0', z) + t, base) == Value(t, base)
    decreases |t|, z
  {
    if t != "" {
      var front, c := t[..|t| - 1], t[|t| - 1];
      assert front + [c] == t && (Repeat('0', z) + front) + [c] == Repeat('0', z) + t;
      ZerosBefore(z, front, base);
      ValueStep(front, c, base);
      ValueStep(Repeat('0', z) + front, c, base);
      hide Value, Append, Repeat;
    } else {
      assert Repeat('0', z) + t == Repeat('0', z);
      if z > 0 {
        ZerosBefore(z - 1, t, base);
        assert Repeat('0', z - 1) + t == Repeat('0', z - 1);
        ValueStep(Repeat('0', z - 1), '0', base);
        assert DigitValue('0') == 0 && Append(0, base, 0) == 0;
      }
    }
  }

  /** Digits read back in their base with any number of zeros before them. */
  lemma ReadsPadded(s: string, p: nat, q: nat, z: int, m: nat, base: nat, large: bool, modulus: nat)
    requires 2 <= base <= 16 && m < modulus && CString(s) && q < |s| && !Accepts(s[q], base)
    requires Stands(s, p, q, Repeat('0', z) + Digits(m, base, large))
    ensures ParseUnsigned(s, p, base, modulus) == Parsed(m, q)
  {
    var t := Digits(m, base, large);
    var x := Repeat('0', z) + t;
    DigitsAccepted(m, base, large);
    assert Accepts('0', base);
    forall k: nat | p <= k < q
      ensures Accepts(s[k], base)
    {
      assert s[k] == x[k - p];
    }
    RunIs(s, p, q, base);
    ZerosBefore(z, t, base);
    AllDigits(m, base, large);
    assert StartAt(s, p, base) == p && BaseAt(s, p, base) == base;
    WrapSmall(m, modulus);
    hide Digits, Value, RunEnd, Accepts, Wrap;
    assert s[p..q] == x;
  }

  lemma AllDigits(m: nat, base: nat, large: bool)
    requires 2 <= base <= 16
    ensures var t := Digits(m, base, large); Value(t, base) == m
  {
    var t := Digits(m, base, large);
    DigitsAccepted(m, base, large);
    assert t[..|t|] == t;
    hide Digits, Value;
    PrefixValue(m, base, large, |t|);
  }

  // The text of a readable field is zeros and the digits of its value, which fits its type.
  lemma ReadableFacts(f: Field)
    requires IsField(f) && Readable(f)
    ensures var z, m := if ZeroFilled(f) then Missing(f) else 0, ValueOf(f);
      && m >= 0 && Core(f) == Repeat('0', z) + Digits(m, BaseOf(f.c), f.c == 'X') != "" && Core(f)[0] != '-'
      && m < TWO_64 && (Noted(f) == 'h' ==> m < TWO_16) && (Noted(f) != 'L' ==> m < TWO_32)
    ensures IsSigned(f) && Noted(f) == 'L' ==> ValueOf(f) < TWO_63
    ensures IsSigned(f) && Noted(f) == 'h' ==> ValueOf(f) < 0x8000
    ensures IsSigned(f) && Noted(f) != 'L' && Noted(f) != 'Z' ==> ValueOf(f) < 0x8000_0000
  {
    var z := if ZeroFilled(f) then Missing(f) else 0;
    ReadableCore(f);
    CoreFirst(f);
    assert !IsSigned(f) || Bits(f) >= 0;
    FieldValue(f);
    assert Core(f) == "" + Repeat('0', z) + DigitsOf(f) == Repeat('0', z) + DigitsOf(f);
    assert DigitsOf(f) == Digits(ValueOf(f), BaseOf(f.c), f.c == 'X');
    hide *;
    assert !IsDigit('-') by { NoDigit(); }
  }

  lemma NoDigit()
    ensures !IsDigit('-')
  {
  }

  lemma ReadsField(s: string, p: nat, q: nat, f: Field)
    requires IsField(f) && Readable(f) && CString(s)
    requires Stands(s, p, q, Core(f)) && q < |s| && AfterField(s[q])
    ensures ReadInt(s, p, Noted(f), IsSigned(f), BaseOf(f.c)) == Parsed(ValueOf(f), q)
  {
    var z := if ZeroFilled(f) then Missing(f) else 0;
    var base, modulus := BaseOf(f.c), if Noted(f) == 'L' then TWO_64 else TWO_32;
    assert !Accepts(s[q], base) && 2 <= base <= 16;
    hide *;
    ReadableFacts(f);
    StandsFirst(s, p, q, Core(f));
    ReadsPadded(s, p, q, z, ValueOf(f), base, f.c == 'X', modulus);
    StoresValue(s, p, q, Noted(f), IsSigned(f), base, ValueOf(f));
  }

  // The reader for a qualifier stores a number that fits the type as it is.
  lemma StoresValue(s: string, p: nat, q: nat, qualifier: char, signed: bool, base: nat, m: nat)
    requires CString(s) && p < |s| && s[p] != '-'
    requires ParseUnsigned(s, p, base, if qualifier == 'L' then TWO_64 else TWO_32) == Parsed(m, q)
    requires m < TWO_64 && (qualifier != 'L' ==> m < TWO_32) && (qualifier == 'h' ==> m < TWO_16)
    requires signed && qualifier == 'L' ==> m < TWO_63
    requires signed && qualifier == 'h' ==> m < 0x8000
    requires signed && qualifier != 'L' && qualifier != 'Z' ==> m < 0x8000_0000
    ensures ReadInt(s, p, qualifier, signed, base) == Parsed(m, q)
  {
    hide ParseUnsigned;
    if qualifier == 'h' {
      WrapsToSelf(m, TWO_16);
    }
  }

  // ---------- one round of the scan ----------

  // The text of f stands from a1 to a2, and its directive in the format from b1 to b2. The
  // cursors a and b are there, or both at a space before.
  ghost predicate AtField(s: string, fmt: string, a: nat, b: nat, a1: nat, b1: nat, a2: nat, b2: nat, f: Field)
    requires IsField(f)
  {
    && CString(s) && CString(fmt) && a2 < |s| && b2 < |fmt|
    && Stands(s, a1, a2, TextOf(f)) && Stands(fmt, b1, b2, DirectiveOf(f)) && AfterField(s[a2])
    && ((a1 == a && b1 == b) || (a1 == a + 1 && b1 == b + 1 && s[a] == ' ' == fmt[b]))
  }

  lemma {:induction false} SkipsRun(s: string, p: nat, e: nat)
    requires CString(s) && p <= e < |s| && !IsSpace(s[e]) && forall k: nat | p <= k < e :: s[k] == ' '
    ensures SkipSpace(s, p) == e
    decreases e - p
  {
    if p < e {
      SkipsRun(s, p + 1, e);
    }
  }

  // White space before a directive is skipped on both sides.
  lemma StepsOver(s: string, fmt: string, a: nat, b: nat, b1: nat, n: nat, width: int)
    requires CString(s) && CString(fmt) && a < |s| && s[a] != NUL && b <= b1
    requires n == b1 + 1 < |fmt| && fmt[b1] == '%'
    requires b1 == b || (b1 == b + 1 && fmt[b] == ' ')
    ensures fmt[b] != NUL
    ensures StepAt(s, fmt, Cursor(a, b, width)) ==
      DirectiveStep(s, fmt, Cursor(if b1 == b then a else SkipSpace(s, a), n, width))
  {
    assert !IsSpace('%') && IsSpace(' ');
    if b1 == b {
      StepsAtPercent(s, fmt, a, b, n, width);
    } else {
      assert SkipSpace(fmt, b1) == b1 && SkipSpace(fmt, b) == b1;
      StepsFromSpace(s, fmt, a, b, b1, n, width);
    }
  }

  lemma StepsFromSpace(s: string, fmt: string, a: nat, b: nat, b1: nat, n: nat, width: int)
    requires CString(s) && CString(fmt) && a < |s| && s[a] != NUL && b < |fmt| && n == b1 + 1 < |fmt|
    requires fmt[b] == ' ' && SkipSpace(fmt, b) == b1 && fmt[b1] == '%'
    ensures StepAt(s, fmt, Cursor(a, b, width)) == DirectiveStep(s, fmt, Cursor(SkipSpace(s, a), n, width))
  {
    hide DirectiveStep, SkipSpace, CString;
  }

  // Where a directive stands, its '%', its spec and what follows.
  lemma DirectiveApart(fmt: string, b1: nat, b2: nat, f: Field)
    requires IsField(f) && CString(fmt) && b2 < |fmt| && Stands(fmt, b1, b2, DirectiveOf(f))
    ensures var e := b1 + 1 + |f.spec|;
      && fmt[b1] == '%' && e < b2 && b2 == e + |f.q| + 1
      && Stands(fmt, b1 + 1, e, f.spec) && Stands(fmt, e, b2, f.q + [f.c])
  {
    var e, y := b1 + 1 + |f.spec|, f.q + [f.c];
    Associative("%" + f.spec, f.q, [f.c]);
    StandsApart(fmt, b1, e, b2, "%" + f.spec, y);
    StandsApart(fmt, b1, b1 + 1, e, "%", f.spec);
    StandsFirst(fmt, b1, b1 + 1, "%");
    assert Stands(fmt, e, b2, y) ==> b2 == e + |y|;
    hide Taken, SpecChar;
  }

  lemma StandsApart(s: string, p: nat, m: nat, q: nat, x: string, y: string)
    requires Stands(s, p, q, x + y) && m == p + |x|
    ensures Stands(s, p, m, x) && Stands(s, m, q, y)
  {
    assert s[p..q][..|x|] == s[p..m] && s[p..q][|x|..] == s[m..q];
    assert (x + y)[..|x|] == x && (x + y)[|x|..] == y;
  }

  lemma NotQualifier(c: char)
    requires SpecChar(c)
    ensures !IsQualifier(c)
  {
  }

  // No conversion has the name of a flag or of the dot.
  lemma NoSuchConversion(s: string, c: char, q: char, at: Cursor)
    requires CString(s) && at.a < |s| && s[at.a] != NUL && SpecChar(c)
    ensures Convert(s, c, q, at) == Stop
  {
    hide CharsEnd, WordEnd, SkipSpace, ReadInt;
  }

  // A spec that is not a width of digits is no directive that vsscanf knows.
  lemma StopsInSpec(s: string, fmt: string, at: Cursor, e: nat, f: Field)
    requires IsField(f) && !DigitsOnly(f.spec)
    requires CString(s) && CString(fmt) && at.a < |s| && e < |fmt| && Stands(fmt, at.b, e, f.spec)
    ensures DirectiveStep(s, fmt, at) == Stop
  {
    var b := SpecBreaks(fmt, at.b, e, f.spec);
    var n := b + 1;
    NotQualifier(fmt[b]);
    hide *;
    if s[at.a] != NUL {
      NoSuchConversion(s, fmt[b], NUL, Cursor(at.a, n, WidthBehind(fmt, at, b)));
    }
    StepBehindDigits(s, fmt, at, b, b, n);
  }

  // Where the digits at the beginning of a spec end before it does.
  lemma SpecBreaks(fmt: string, p: nat, e: nat, x: string) returns (b: nat)
    requires Stands(fmt, p, e, x) && !DigitsOnly(x) && forall c | c in x :: SpecChar(c)
    ensures p <= b < e && SpecChar(fmt[b]) && !IsDigit(fmt[b]) && fmt[p] != '*'
    ensures forall k: nat | p <= k < b :: IsDigit(fmt[k])
  {
    var j := DigitsEnd(x, 0);
    assert forall k: nat | k < |x| :: x[k] in x;
    StandsAt(fmt, p, e, x, j);
    StandsAt(fmt, p, e, x, 0);
    b := p + j;
    forall k: nat | p <= k < b
      ensures IsDigit(fmt[k])
    {
      StandsAt(fmt, p, e, x, k - p);
    }
    hide DigitsEnd;
  }

  function DigitsEnd(x: string, j: nat): (e: nat)
    requires j <= |x|
    ensures j <= e <= |x| && (e < |x| ==> !IsDigit(x[e])) && forall k: nat | j <= k < e :: IsDigit(x[k])
    decreases |x| - j
  {
    if j < |x| && IsDigit(x[j]) then DigitsEnd(x, j + 1) else j
  }

  lemma LIsNoConversion(s: string, at: Cursor)
    requires CString(s) && at.a < |s| && s[at.a] != NUL
    ensures Convert(s, 'l', 'l', at) == Stop
  {
  }

  // The qualifier and the conversion character, from behind the digits.
  lemma FindsConversion(s: string, fmt: string, at: Cursor, e: nat, b2: nat, f: Field)
    requires IsField(f) && DigitsOnly(f.spec) && CString(s) && CString(fmt) && at.a < |s| && s[at.a] != NUL
    requires Stands(fmt, at.b, e, f.spec) && Stands(fmt, e, b2, f.q + [f.c]) && b2 < |fmt|
    ensures var w := WidthBehind(fmt, at, e);
      DirectiveStep(s, fmt, at) == if f.q == "ll" then Stop else Convert(s, f.c, Noted(f), Cursor(at.a, b2, w))
  {
    DigitsStand(fmt, at.b, e, f.spec);
    QualifierStands(fmt, e, b2, f);
    var w := WidthBehind(fmt, at, e);
    assert b2 < |fmt| && e < |fmt| && CString(s) && CString(fmt);
    hide *;
    if f.q == "" {
      StepBehindDigits(s, fmt, at, e, e, b2);
    } else {
      var b := e + 1;
      if f.q == "ll" {
        var n := b + 1;
        LIsNoConversion(s, Cursor(at.a, n, w));
        StepBehindDigits(s, fmt, at, e, b, n);
      } else {
        StepBehindDigits(s, fmt, at, e, b, b2);
      }
    }
  }

  lemma DigitsStand(fmt: string, b: nat, e: nat, x: string)
    requires Stands(fmt, b, e, x) && DigitsOnly(x)
    ensures e == b + |x| && (b < e ==> fmt[b] != '*') && forall k: nat | b <= k < e :: IsDigit(fmt[k])
  {
    forall k: nat | b <= k < e
      ensures IsDigit(fmt[k])
    {
      assert fmt[k] == x[k - b] && x[k - b] in x;
    }
  }

  lemma QualifierStands(fmt: string, e: nat, b2: nat, f: Field)
    requires IsField(f) && Stands(fmt, e, b2, f.q + [f.c]) && b2 < |fmt|
    ensures !IsDigit(fmt[e]) && fmt[e] != '*' && e < b2 && f.c != NUL
    ensures f.q == "ll" ==> IsQualifier(fmt[e]) && fmt[e] == 'l' && b2 == e + 3 && fmt[e + 1] == 'l'
    ensures f.q == "" ==> !IsQualifier(fmt[e]) && b2 == e + 1 && fmt[e] == f.c && Noted(f) == NUL
    ensures f.q != "" && f.q != "ll" ==>
      IsQualifier(fmt[e]) && b2 == e + 2 && fmt[e + 1] == f.c && Noted(f) == fmt[e]
  {
    var y := f.q + [f.c];
    StandsFirst(fmt, e, b2, y);
    StandsAt(fmt, e, b2, y, |f.q|);
    if f.q == "ll" {
      StandsAt(fmt, e, b2, y, 1);
      assert y[1] == 'l';
    }
    hide Taken, Stands, SpecChar;
  }

  // An integer conversion at white space that ends at a0.
  lemma ConvertsInteger(s: string, c: char, q: char, at: Cursor, a0: nat)
    requires CString(s) && at.a < |s| && s[at.a] != NUL && IsInteger(c) && SkipSpace(s, at.a) == a0
    ensures Convert(s, c, q, at) ==
      if !IsDigit(s[a0]) then Stop
      else var r := ReadInt(s, a0, q, c == 'd' || c == 'i', BaseOf(c)); Go(at.(a := r.end), [Int(r.value)], 1)
  {
    hide ReadInt, SkipSpace;
  }

  lemma ConvertsField(s: string, f: Field, at: Cursor, a0: nat, a2: nat)
    requires IsField(f) && DigitsOnly(f.spec) && f.q != "ll" && CString(s) && at.a < |s| && a2 < |s|
    requires s[at.a] != NUL && SkipSpace(s, at.a) == a0
    requires Stands(s, a0, a2, Core(f)) && AfterField(s[a2])
    ensures Convert(s, f.c, Noted(f), at) ==
      if Readable(f) then Go(at.(a := a2), [Int(ValueOf(f))], 1) else Stop
  {
    CoreFirst(f);
    StandsFirst(s, a0, a2, Core(f));
    ReadableCore(f);
    assert IsDigit(s[a0]) <==> Readable(f);
    if Readable(f) {
      ReadsField(s, a0, a2, f);
    }
    ConvertsInteger(s, f.c, Noted(f), at, a0);
    hide *;
  }

  // Where the text of a width of digits stands, its spaces up to a0 and its core behind them.
  lemma TextApart(s: string, a: nat, a1: nat, a0: nat, a2: nat, f: Field)
    requires IsField(f) && DigitsOnly(f.spec) && CString(s) && a2 < |s| && Stands(s, a1, a2, TextOf(f))
    requires (a1 == a || (a1 == a + 1 && s[a] == ' ')) && a0 == a1 + |Spaces(f)|
    ensures a <= a0 < a2 && Stands(s, a0, a2, Core(f)) && s[a0] != NUL && s[a] != NUL
    ensures SkipSpace(s, a) == a0 && SkipSpace(s, a0) == a0
  {
    var x, y := Spaces(f), Core(f);
    TextIs(f);
    CoreFirst(f);
    assert forall k: nat | k < |x| :: x[k] == ' ';
    hide *;
    StandsApart(s, a1, a0, a2, x, y);
    StandsFirst(s, a0, a2, y);
    SpacesStand(s, a1, a0, x);
    assert forall k: nat | a <= k < a0 :: s[k] == ' ';
    SkipsRun(s, a, a0);
    SkipsRun(s, a0, a0);
  }

  lemma SpacesStand(s: string, p: nat, q: nat, x: string)
    requires Stands(s, p, q, x) && forall k: nat | k < |x| :: x[k] == ' '
    ensures forall k: nat | p <= k < q :: s[k] == ' '
  {
    forall k: nat | p <= k < q
      ensures s[k] == ' '
    {
      assert s[k] == x[k - p];
    }
  }

  /** One round of vsscanf over a field: it stores the value if the field is readable, and
      ends the scan otherwise. */
  lemma {:induction false} OneField(s: string, fmt: string, a: nat, b: nat,
                                    a1: nat, b1: nat, a2: nat, b2: nat, f: Field, width: int)
    requires IsField(f) && AtField(s, fmt, a, b, a1, b1, a2, b2, f) && s[a] != NUL
    ensures fmt[b] != NUL
    ensures var r := StepAt(s, fmt, Cursor(a, b, width));
      if Readable(f) then r.Go? && r == Go(Cursor(a2, b2, r.next.width), [Int(ValueOf(f))], 1) else r == Stop
  {
    DirectiveApart(fmt, b1, b2, f);
    var n := b1 + 1;
    StepsOver(s, fmt, a, b, b1, n, width);
    var e := n + |f.spec|;
    var at := Cursor(if b1 == b then a else SkipSpace(s, a), n, width);
    hide StepAt, DirectiveStep, TextOf, Stands, Convert, ValueOf, SkipSpace, Core, Spaces, Taken, AtoiAt, CString;
    if !DigitsOnly(f.spec) {
      StopsInSpec(s, fmt, at, e, f);
      assert !Readable(f);
    } else {
      hide Readable;
      var a0 := a1 + |Spaces(f)|;
      TextApart(s, a, a1, a0, a2, f);
      FindsConversion(s, fmt, at, e, b2, f);
      if f.q != "ll" {
        var w := WidthBehind(fmt, at, e);
        ConvertsField(s, f, Cursor(at.a, b2, w), a0, a2);
      }
    }
  }

  /** The values of the fields before the first one that is not readable. */
  function Recovered(fs: seq<Field>): seq<Stored>
    requires forall f | f in fs :: IsField(f)
  {
    if fs == [] || !Readable(fs[0]) then [] else [Int(ValueOf(fs[0]))] + Recovered(fs[1..])
  }

  // What s holds from p on, up to its end: x and a NUL.
  ghost predicate TextLeft(s: string, p: nat, x: string) {
    p < |s| && s[p..] == x + [NUL]
  }

  // A text x from p to q, and then y.
  lemma LeftApart(s: string, p: nat, q: nat, x: string, y: string)
    requires TextLeft(s, p, x + y) && q == p + |x|
    ensures Stands(s, p, q, x) && TextLeft(s, q, y)
  {
    var t := s[p..];
    assert t[..|x|] == x && t[|x|..] == y + [NUL];
    assert s[p..q] == t[..|x|] && s[q..] == t[|x|..];
  }

  lemma LeftFirst(s: string, p: nat, x: string)
    requires TextLeft(s, p, x)
    ensures s[p] == if x == "" then NUL else x[0]
  {
    assert s[p] == s[p..][0];
  }

  // Behind a space that separates, or not: the first field and what follows it.
  lemma FirstField(s: string, p: nat, p1: nat, p2: nat, x: string, y: string)
    requires x != "" && p2 == p1 + |x|
    requires if p1 == p + 1 then TextLeft(s, p, Spaced(x + Spaced(y))) else p1 == p && TextLeft(s, p, x + Spaced(y))
    ensures Stands(s, p1, p2, x) && TextLeft(s, p2, Spaced(y)) && p2 < |s|
    ensures AfterField(s[p2]) && (p1 == p + 1 ==> s[p] == ' ')
  {
    if p1 == p + 1 {
      assert Spaced(x + Spaced(y)) == " " + (x + Spaced(y));
      LeftFirst(s, p, " " + (x + Spaced(y)));
      LeftApart(s, p, p1, " ", x + Spaced(y));
    }
    LeftApart(s, p1, p2, x, Spaced(y));
    LeftFirst(s, p2, Spaced(y));
    hide Stands;
  }

  lemma {:induction false} ScansFields(s: string, fmt: string, a: nat, b: nat, spaced: bool, fs: seq<Field>, width: int)
    requires forall f | f in fs :: IsField(f)
    requires CString(s) && CString(fmt)
    requires TextLeft(s, a, if spaced then Spaced(Printed(fs)) else Printed(fs))
    requires TextLeft(fmt, b, if spaced then Spaced(FormatOf(fs)) else FormatOf(fs))
    ensures ScanFrom(s, fmt, Cursor(a, b, width)) == Scanned(Recovered(fs), |Recovered(fs)|)
    decreases |fs|
  {
    if fs == [] {
      LeftFirst(s, a, "");
    } else {
      var f, rest := fs[0], fs[1..];
      var a1, b1 := if spaced then a + 1 else a, if spaced then b + 1 else b;
      var a2, b2 := a1 + |TextOf(f)|, b1 + |DirectiveOf(f)|;
      FirstStands(s, fmt, a, b, a1, b1, a2, b2, fs);
      ScansFirst(s, fmt, a, b, a1, b1, a2, b2, f, width);
      hide AtField, TextOf, DirectiveOf, Spaced, TextLeft, Readable, ValueOf, StepAt, IsField;
      if Readable(f) {
        ScansFields(s, fmt, a2, b2, true, rest, StepAt(s, fmt, Cursor(a, b, width)).next.width);
      }
    }
  }

  // The first field, in the text and in the format, and the others behind it.
  lemma FirstStands(s: string, fmt: string, a: nat, b: nat, a1: nat, b1: nat, a2: nat, b2: nat, fs: seq<Field>)
    requires fs != [] && (forall f | f in fs :: IsField(f)) && CString(s) && CString(fmt)
    requires a2 == a1 + |TextOf(fs[0])| && b2 == b1 + |DirectiveOf(fs[0])|
    requires (a1 == a && b1 == b) || (a1 == a + 1 && b1 == b + 1)
    requires TextLeft(s, a, if a1 == a then Printed(fs) else Spaced(Printed(fs)))
    requires TextLeft(fmt, b, if a1 == a then FormatOf(fs) else Spaced(FormatOf(fs)))
    ensures AtField(s, fmt, a, b, a1, b1, a2, b2, fs[0])
    ensures TextLeft(s, a2, Spaced(Printed(fs[1..]))) && TextLeft(fmt, b2, Spaced(FormatOf(fs[1..])))
  {
    NotEmpty(fs[0]);
    assert DirectiveOf(fs[0]) != "";
    hide TextOf, DirectiveOf, Spaced, Stands, TextLeft, IsField;
    FirstField(s, a, a1, a2, TextOf(fs[0]), Printed(fs[1..]));
    FirstField(fmt, b, b1, b2, DirectiveOf(fs[0]), FormatOf(fs[1..]));
  }

  // A round of the scan, and what it leaves to the next ones.
  lemma ScansFirst(s: string, fmt: string, a: nat, b: nat, a1: nat, b1: nat, a2: nat, b2: nat, f: Field, width: int)
    requires IsField(f) && AtField(s, fmt, a, b, a1, b1, a2, b2, f)
    ensures var all := ScanFrom(s, fmt, Cursor(a, b, width));
      if Readable(f) then
        s[a] != NUL && fmt[b] != NUL &&
        var r := StepAt(s, fmt, Cursor(a, b, width));
        r.Go? &&
        var rest := ScanFrom(s, fmt, Cursor(a2, b2, r.next.width));
        all == Scanned([Int(ValueOf(f))] + rest.stores, 1 + rest.num)
      else all == Scanned([], 0)
  {
    if DigitsOnly(f.spec) {
      TextApart(s, a, a1, a1 + |Spaces(f)|, a2, f);
    }
    if s[a] != NUL {
      OneField(s, fmt, a, b, a1, b1, a2, b2, f, width);
    } else {
      assert !Readable(f);
    }
    hide StepAt, TextOf, ValueOf, DirectiveOf, Stands, SkipSpace, Core, Spaces, Taken;
  }

  lemma {:induction false} RecoversPrefix(fs: seq<Field>)
    requires forall f | f in fs :: IsField(f)
    ensures var r := Recovered(fs);
      && |r| <= |fs|
      && (forall i | 0 <= i < |r| :: Readable(fs[i]) && r[i] == Int(ValueOf(fs[i])))
      && (|r| < |fs| ==> !Readable(fs[|r|]))
    decreases |fs|
  {
    hide Readable, ValueOf;
    if fs != [] && Readable(fs[0]) {
      RecoversPrefix(fs[1..]);
      var r, t := Recovered(fs), Recovered(fs[1..]);
      assert r == [Int(ValueOf(fs[0]))] + t;
      forall i | 0 <= i < |r|
        ensures Readable(fs[i]) && r[i] == Int(ValueOf(fs[i]))
      {
        assert i > 0 ==> fs[i] == fs[1..][i - 1] && r[i] == t[i - 1];
      }
    }
  }

  /** vsscanf undoes vsnprintf on any number of fields separated by spaces, up to the first
      one that is not readable: it stores the values of all arguments before that one, in
      order, and returns how many those are. So it recovers all of them if and only if
      every field is readable. An argument in the range of its type comes back as it is. */
  lemma {:induction false} ScanUndoesPrint(fs: seq<Field>)
    requires forall f | f in fs :: IsField(f)
    ensures NUL !in FormatOf(fs)
    ensures var text, fmt := Text(FormatOf(fs), ArgsOf(fs)), FormatOf(fs);
      var r := Scan(text + [NUL], fmt + [NUL]);
      && r.num == |r.stores| <= |fs|
      && (forall i | 0 <= i < r.num :: Readable(fs[i]) && r.stores[i] == Int(ValueOf(fs[i])))
      && (forall i | 0 <= i < r.num && InRange(fs[i]) :: r.stores[i] == Int(fs[i].v))
      && (r.num == |fs| <==> forall f | f in fs :: Readable(f))
  {
    PrintsFields(fs);
    ScansFields(Printed(fs) + [NUL], FormatOf(fs) + [NUL], 0, 0, false, fs, -1);
    RecoversPrefix(fs);
    hide Readable, ValueOf;
    forall i | 0 <= i < |Recovered(fs)| && InRange(fs[i])
      ensures Recovered(fs)[i] == Int(fs[i].v)
    {
      ValueInRange(fs[i]);
    }
  }

  lemma ValueInRange(f: Field)
    requires IsField(f) && InRange(f)
    ensures ValueOf(f) == f.v
  {
    hide Taken, SpecChar;
  }

  /** Unsigned and octal fields, with any width and filled with spaces or zeros, always come
      back, all of them, unless one is printed with "ll", which vsscanf does not know. */
  lemma {:induction false} UnsignedFieldsComeBack(fs: seq<Field>)
    requires forall f | f in fs :: IsField(f) && (f.c == 'u' || f.c == 'o')
    requires forall f | f in fs :: DigitsOnly(f.spec) && f.q != "ll"
    ensures NUL !in FormatOf(fs)
    ensures var text, fmt := Text(FormatOf(fs), ArgsOf(fs)), FormatOf(fs);
      var r := Scan(text + [NUL], fmt + [NUL]);
      && r.num == |r.stores| == |fs|
      && forall i | 0 <= i < |fs| :: r.stores[i] == Int(ValueOf(fs[i]))
  {
    ScanUndoesPrint(fs);
    forall f | f in fs
      ensures Readable(f)
    {
      WhatIsReadable(f);
    }
    hide Readable, ValueOf;
  }
}
