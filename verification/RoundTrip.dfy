/** The readers of lib/vsprintf.c (lines 71-107) undo what number (lines 126-219) prints. */
module RoundTrip {
  import opened Ctype
  import opened Output
  import opened Number
  import opened Parse

  // ---------- digits and their values ----------

  lemma DigitAccepted(d: nat, large: bool)
    requires d < 36
    ensures IsXdigit(DigitChar(d, large)) <==> d < 16
    ensures d < 16 ==> DigitValue(DigitChar(d, large)) == d
    ensures DigitChar(d, large) == '0' <==> d == 0
    ensures DigitChar(d, large) != '-' && (d < 16 ==> DigitChar(d, large) != 'x')
    ensures IsDigit(DigitChar(d, large)) <==> d < 10
  {
  }

  // Digits, taken apart at the end.
  lemma DigitsSplit(m: nat, base: nat, large: bool)
    requires 2 <= base <= 36 && m >= base
    ensures 0 < m / base < m && m % base < base && m == m / base * base + m % base
    ensures Digits(m, base, large) == Digits(m / base, base, large) + [DigitChar(m % base, large)]
  {
    QuotientAtMost(m, base);
    Smaller(m, base);
  }

  /** The digit that a character of number's two tables stands for, in any base up to 36. */
  function DigitOf(c: char): nat {
    if IsDigit(c) then c as int - 48
    else if 'A' <= c <= 'Z' then c as int - 55
    else if 'a' <= c <= 'z' then c as int - 87
    else 0
  }

  /** The number that a text of digits denotes. */
  function Denoted(s: string, base: nat): nat
    decreases |s|
  {
    if s == "" then 0 else Denoted(s[..|s| - 1], base) * base + DigitOf(s[|s| - 1])
  }

  lemma DigitCharIs(d: nat, large: bool)
    requires d < 36
    ensures DigitOf(DigitChar(d, large)) == d
  {
  }

  /** In every base from 2 to 36 the digits that number prints denote the number, all of
      them are digits of the base, and none of them leads in vain. */
  lemma {:induction false} DigitsDenote(m: nat, base: nat, large: bool)
    requires 2 <= base <= 36
    ensures var s := Digits(m, base, large);
      && Denoted(s, base) == m
      && (forall k :: 0 <= k < |s| ==> DigitOf(s[k]) < base)
      && (DigitOf(s[0]) == 0 ==> m == 0)
    decreases m
  {
    var s := Digits(m, base, large);
    if m < base {
      DigitCharIs(m, large);
      assert s[..0] == "" && Denoted("", base) == 0;
    } else {
      DigitsSplit(m, base, large);
      DigitCharIs(m % base, large);
      DigitsDenote(m / base, base, large);
      assert s[..|s| - 1] == Digits(m / base, base, large);
    }
  }

  /** Different numbers have different digits. */
  lemma DigitsTellApart(m: nat, n: nat, base: nat, large: bool)
    requires 2 <= base <= 36 && Digits(m, base, large) == Digits(n, base, large)
    ensures m == n
  {
    DigitsDenote(m, base, large);
    DigitsDenote(n, base, large);
  }

  /** A digit of the base as number writes it: the letters are capitals exactly if LARGE is set. */
  predicate DigitIn(c: char, base: nat, large: bool) {
    DigitOf(c) < base && ('0' <= c <= '9' || (large && 'A' <= c <= 'Z') || (!large && 'a' <= c <= 'z'))
  }

  /** s is the numeral of m: digits of the base that denote m, without zeros before them. */
  ghost predicate Numeral(s: string, m: nat, base: nat, large: bool) {
    && s != "" && Denoted(s, base) == m && (s[0] == '0' ==> |s| == 1)
    && forall k: nat | k < |s| :: DigitIn(s[k], base, large)
  }

  lemma DigitWritten(d: nat, base: nat, large: bool, c: char)
    requires d < base <= 36 && c == DigitChar(d, large)
    ensures DigitIn(c, base, large) && DigitOf(c) == d
  {
  }

  lemma DigitFound(c: char, base: nat, large: bool)
    requires base <= 36 && DigitIn(c, base, large)
    ensures DigitChar(DigitOf(c), large) == c
  {
  }

  lemma {:induction false} DigitsAreIn(m: nat, base: nat, large: bool)
    requires 2 <= base <= 36
    ensures var s := Digits(m, base, large); forall k: nat | k < |s| :: DigitIn(s[k], base, large)
    decreases m
  {
    if m < base {
      DigitWritten(m, base, large, DigitChar(m, large));
    } else {
      DigitsSplit(m, base, large);
      DigitWritten(m % base, base, large, DigitChar(m % base, large));
      DigitsAreIn(m / base, base, large);
    }
  }

  lemma DenotedMore(s: string, c: char, base: nat)
    ensures Denoted(s + [c], base) == Denoted(s, base) * base + DigitOf(c)
  {
    assert (s + [c])[..|s|] == s;
  }

  /** number prints the numeral of its number, and there is no other. */
  lemma {:induction false} NumeralIs(s: string, m: nat, base: nat, large: bool)
    requires 2 <= base <= 36
    ensures Numeral(s, m, base, large) <==> s == Digits(m, base, large)
    decreases |s|
  {
    if s == Digits(m, base, large) {
      DigitsDenote(m, base, large);
      FirstDigit(m, base, large);
      DigitsAreIn(m, base, large);
    } else if Numeral(s, m, base, large) {
      OnlyNumeral(s, m, base, large);
    }
  }

  lemma {:induction false} OnlyNumeral(s: string, m: nat, base: nat, large: bool)
    requires 2 <= base <= 36 && Numeral(s, m, base, large)
    ensures s == Digits(m, base, large)
    decreases |s|
  {
    if |s| == 1 {
      OnlyDigit(s, m, base, large);
    } else {
      hide *;
      var front, c := s[..|s| - 1], s[|s| - 1];
      var n, d := FrontNumeral(s, m, base, large);
      OnlyNumeral(front, n, base, large);
      FirstDigit(n, base, large);
      DigitsMore(m, base, large, n, d);
      assert s == front + [c];
    }
  }

  lemma OnlyDigit(s: string, m: nat, base: nat, large: bool)
    requires 2 <= base <= 36 && |s| == 1 && Numeral(s, m, base, large)
    ensures s == Digits(m, base, large)
  {
    assert s == "" + [s[0]];
    DenotedMore("", s[0], base);
    DigitFound(s[0], base, large);
    hide DigitOf, DigitChar;
    assert Denoted("", base) == 0;
    hide Denoted;
    assert m == DigitOf(s[0]);
  }

  // A numeral of more than one digit: the number before the last one, which is d.
  lemma FrontNumeral(s: string, m: nat, base: nat, large: bool) returns (n: nat, d: nat)
    requires 2 <= base <= 36 && |s| > 1 && Numeral(s, m, base, large)
    ensures Numeral(s[..|s| - 1], n, base, large) && s[..|s| - 1][0] != '0'
    ensures d < base && m == n * base + d && DigitChar(d, large) == s[|s| - 1]
  {
    var front, c := s[..|s| - 1], s[|s| - 1];
    assert s == front + [c];
    DenotedMore(front, c, base);
    DigitFound(c, base, large);
    hide Denoted, DigitOf, DigitChar;
    n, d := Denoted(front, base), DigitOf(c);
    forall k: nat | k < |front|
      ensures DigitIn(front[k], base, large)
    {
      assert front[k] == s[k];
    }
    assert front[0] == s[0] && d < base;
  }

  lemma DigitsMore(m: nat, base: nat, large: bool, n: nat, d: nat)
    requires 2 <= base <= 36 && 0 < n && d < base && m == n * base + d
    ensures Digits(m, base, large) == Digits(n, base, large) + [DigitChar(d, large)]
  {
    QuotientUnique(m, base, n, d);
    MulMonotone(1, n, base);
    DigitsSplit(m, base, large);
  }

  /** The readers go no further than e in the text s. */
  ghost predicate StopsAt(s: string, e: nat) {
    && e <= |s| && (e < |s| ==> !IsXdigit(s[e]))
    && forall k: nat | k < e :: IsXdigit(s[k])
  }

  // The same in the text without its last character.
  lemma StopsBefore(t: string, c: char, e: nat)
    requires StopsAt(t + [c], e)
    ensures var e' := if e == |t| + 1 then |t| else e;
      && StopsAt(t, e')
      && (e == |t| + 1 ==> IsXdigit(c) && (t + [c])[..e] == t + [c] && t[..e'] == t)
      && (e <= |t| ==> (t + [c])[..e] == t[..e])
  {
    var s := t + [c];
    assert forall k: nat | k < |t| :: s[k] == t[k];
    assert s[|t|] == c;
  }

  /** The first e digits of m, when e is where the readers stop: all of them give m, and
      fewer of them give less. */
  lemma {:induction false} PrefixValue(m: nat, base: nat, large: bool, e: nat)
    requires 2 <= base <= 36 && StopsAt(Digits(m, base, large), e)
    ensures var s := Digits(m, base, large);
      var v := Value(s[..e], base);
      if e == |s| then v == m else v < m
    decreases m
  {
    if m < base {
      PrefixOfOne(m, base, large, e);
    } else {
      DigitsSplit(m, base, large);
      var t, c := Digits(m / base, base, large), DigitChar(m % base, large);
      DigitAccepted(m % base, large);
      StopsBefore(t, c, e);
      ValueStep(t, c, base);
      hide *;
      PrefixValue(m / base, base, large, if e == |t| + 1 then |t| else e);
      assert Digits(m, base, large) == t + [c];
      assert e == |t| + 1 ==> Append(m / base, base, m % base) == m by { AppendIs(m, base); }
      assert e <= |t| ==> m / base < m;
    }
  }

  lemma AppendIs(m: nat, base: nat)
    requires 2 <= base && m == m / base * base + m % base
    ensures Append(m / base, base, m % base) == m
  {
  }

  lemma PrefixOfOne(m: nat, base: nat, large: bool, e: nat)
    requires 2 <= base <= 36 && m < base && StopsAt(Digits(m, base, large), e)
    ensures var s := Digits(m, base, large);
      var v := Value(s[..e], base);
      if e == |s| then v == m else v < m
  {
    var c := DigitChar(m, large);
    DigitAccepted(m, large);
    assert Digits(m, base, large) == [c];
    hide Digits, DigitChar, IsXdigit, DigitValue, Accepts;
    assert e == 0 ==> !IsXdigit([c][0]);
    assert e == 1 ==> IsXdigit([c][0]);
    hide StopsAt;
    assert [c][..1] == [c] && [c][..0] == "";
    assert Value("", base) == 0 && Value([c], base) == Append(0, base, DigitValue(c)) by {
      assert [c][..0] == "";
    }
  }

  lemma {:induction false} DigitsAccepted(m: nat, base: nat, large: bool)
    requires 2 <= base <= 16
    ensures forall k :: 0 <= k < |Digits(m, base, large)| ==> Accepts(Digits(m, base, large)[k], base)
    decreases m
  {
    if m < base {
      DigitAccepted(m, large);
    } else {
      DigitsSplit(m, base, large);
      DigitAccepted(m % base, large);
      DigitsAccepted(m / base, base, large);
    }
  }

  /** No leading zero but for zero itself. */
  lemma {:induction false} FirstDigit(m: nat, base: nat, large: bool)
    requires 2 <= base <= 36
    ensures Digits(m, base, large)[0] == '0' <==> m == 0
    ensures m == 0 ==> Digits(m, base, large) == "0"
    decreases m
  {
    if m < base {
      DigitAccepted(m, large);
    } else {
      DigitsSplit(m, base, large);
      FirstDigit(m / base, base, large);
    }
  }

  // ---------- reading a run of digits inside a string ----------

  lemma {:induction false} RunIs(s: string, p: nat, e: nat, base: nat)
    requires CString(s) && p <= e < |s| && !Accepts(s[e], base)
    requires forall k :: p <= k < e ==> Accepts(s[k], base)
    ensures RunEnd(s, p, base) == e
    decreases e - p
  {
    if p < e {
      RunIs(s, p + 1, e, base);
    }
  }

  lemma WrapSmall(v: nat, modulus: nat)
    requires v < modulus
    ensures Wrap(v, modulus) == v
  {
    QuotientUnique(v, modulus, 0, v);
  }

  /** Digits printed in base 2 to 16 and followed by no further digit read back in the
      same base, wherever they are. */
  lemma {:induction false} ReadDigits(s: string, p: nat, m: nat, base: nat, large: bool, modulus: nat)
    requires 2 <= base <= 16 && m < modulus && CString(s)
    requires var t := Digits(m, base, large); p + |t| < |s| && s[p..p + |t|] == t && !Accepts(s[p + |t|], base)
    ensures ParseUnsigned(s, p, base, modulus) == Parsed(m, p + |Digits(m, base, large)|)
  {
    var t := Digits(m, base, large);
    DigitsAccepted(m, base, large);
    assert forall k :: p <= k < p + |t| ==> s[k] == t[k - p];
    RunIs(s, p, p + |t|, base);
    PrefixValue(m, base, large, |t|);
    assert t[..|t|] == t;
    WrapSmall(m, modulus);
  }

  lemma {:induction false} ValueDenotes(s: string, base: nat)
    requires forall k: nat | k < |s| :: Accepts(s[k], base)
    ensures Value(s, base) == Denoted(s, base)
    decreases |s|
  {
    if s != "" {
      ValueDenotes(s[..|s| - 1], base);
    }
  }

  /** A digit that the readers take in a base. */
  predicate ReadableDigit(c: char, base: nat) {
    ('0' <= c <= '9' || 'A' <= c <= 'F' || 'a' <= c <= 'f') && DigitOf(c) < base
  }

  lemma AcceptsIs(c: char, base: nat)
    ensures Accepts(c, base) <==> ReadableDigit(c, base)
  {
  }

  /** simple_strtoul and simple_strtoull: the number that the longest run of digits of the
      base denotes, reduced to the size of the type. */
  lemma ReadsUnsigned(s: string, p: nat, base: nat, modulus: nat)
    requires CString(s) && p < |s| && base > 0 && modulus > 0
    ensures var r := ParseUnsigned(s, p, base, modulus);
      && r.value == Denoted(s[p..r.end], base) % modulus
      && (forall k: nat | p <= k < r.end :: ReadableDigit(s[k], base)) && !ReadableDigit(s[r.end], base)
  {
    var e := RunEnd(s, p, base);
    forall k: nat | p <= k <= e
      ensures Accepts(s[k], base) <==> ReadableDigit(s[k], base)
    {
      AcceptsIs(s[k], base);
    }
    ValueDenotes(s[p..e], base);
  }

  /** simple_strtol and simple_strtoll: that number, or its negative behind a minus sign,
      in the range of the signed type. */
  lemma ReadsSigned(s: string, p: nat, base: nat, modulus: nat)
    requires CString(s) && p < |s| && base > 0 && (modulus == TWO_32 || modulus == TWO_64)
    ensures var r, q := ParseSigned(s, p, base, modulus), if s[p] == '-' then p + 1 else p;
      && q <= r.end && r.end == ParseUnsigned(s, q, base, modulus).end
      && -(modulus / 2) <= r.value < modulus / 2
      && var n: int := Denoted(s[q..r.end], base);
         (r.value - if s[p] == '-' then -n else n) % modulus == 0
  {
    var q := if s[p] == '-' then p + 1 else p;
    SignedIs(s, p, base, modulus, q);
    hide *;
    ReadsUnsigned(s, q, base, modulus);
    SignedResidue(Denoted(s[q..ParseUnsigned(s, q, base, modulus).end], base), modulus);
  }

  lemma SignedIs(s: string, p: nat, base: nat, modulus: nat, q: nat)
    requires CString(s) && p < |s| && modulus > 0 && q == if s[p] == '-' then p + 1 else p
    ensures q < |s|
    ensures var u := ParseUnsigned(s, q, base, modulus);
      ParseSigned(s, p, base, modulus) ==
        Parsed(ToSigned(if s[p] == '-' then (modulus - u.value) % modulus else u.value, modulus), u.end)
  {
    hide ParseUnsigned;
  }

  lemma SignedResidue(n: nat, modulus: nat)
    requires modulus == TWO_32 || modulus == TWO_64
    ensures var u := n % modulus;
      && -(modulus / 2) <= ToSigned(u, modulus) < modulus / 2 && (ToSigned(u, modulus) - n) % modulus == 0
      && var x := ToSigned((modulus - u) % modulus, modulus);
         -(modulus / 2) <= x < modulus / 2 && (x + n) % modulus == 0
  {
    if modulus == TWO_32 {
      Residue32(n);
    } else {
      Residue64(n);
    }
    hide ToSigned;
  }

  lemma Residue32(n: nat)
    ensures var u := n % TWO_32;
      && -0x8000_0000 <= ToSigned(u, TWO_32) < 0x8000_0000 && (ToSigned(u, TWO_32) - n) % TWO_32 == 0
      && var x := ToSigned((TWO_32 - u) % TWO_32, TWO_32);
         -0x8000_0000 <= x < 0x8000_0000 && (x + n) % TWO_32 == 0
  {
  }

  lemma Residue64(n: nat)
    ensures var u := n % TWO_64;
      && -TWO_63 <= ToSigned(u, TWO_64) < TWO_63 && (ToSigned(u, TWO_64) - n) % TWO_64 == 0
      && var x := ToSigned((TWO_64 - u) % TWO_64, TWO_64);
         -TWO_63 <= x < TWO_63 && (x + n) % TWO_64 == 0
  {
  }

  /** With base 0, hexadecimal digits are read behind "0x" if one is there; octal ones from
      any other "0" on; and else decimal ones. */
  lemma BaseZero(s: string, p: nat, modulus: nat)
    requires CString(s) && p < |s| && modulus > 0
    ensures s[p] == '0' ==> p + 1 < |s|
    ensures s[p] != '0' ==> ParseUnsigned(s, p, 0, modulus) == ParseUnsigned(s, p, 10, modulus)
    ensures s[p] == '0' && s[p + 1] == 'x' ==> p + 2 < |s|
    ensures s[p] == '0' && s[p + 1] == 'x' && ReadableDigit(s[p + 2], 16) ==>
      ParseUnsigned(s, p, 0, modulus) == ParseUnsigned(s, p + 2, 16, modulus)
    ensures s[p] == '0' && !(s[p + 1] == 'x' && ReadableDigit(s[p + 2], 16)) ==>
      ParseUnsigned(s, p, 0, modulus) == ParseUnsigned(s, p, 8, modulus)
  {
    assert s[p] == '0' && s[p + 1] == 'x' ==> p + 2 < |s|;
    if s[p] == '0' && !(s[p + 1] == 'x' && IsXdigit(s[p + 2])) {
      OctalFromZero(s, p, modulus);
    }
    hide RunEnd, Value, Wrap;
  }

  lemma OctalFromZero(s: string, p: nat, modulus: nat)
    requires CString(s) && p + 1 < |s| && s[p] == '0' && modulus > 0
    ensures ParseUnsigned(s, p + 1, 8, modulus) == ParseUnsigned(s, p, 8, modulus)
  {
    var e := RunEnd(s, p + 1, 8);
    assert Accepts('0', 8) && RunEnd(s, p, 8) == e;
    assert s[p..e] == ['0'] + s[p + 1..e];
    ZeroBefore(s[p + 1..e], 8);
    hide RunEnd, Value, Wrap;
  }

  lemma {:induction false} ZeroBefore(t: string, base: nat)
    ensures Value(['0'] + t, base) == Value(t, base)
    decreases |t|
  {
    if t == "" {
      assert ['0'] + t == "" + ['0'] && DigitValue('0') == 0;
      ValueStep("", '0', base);
    } else {
      var front, c := t[..|t| - 1], t[|t| - 1];
      assert front + [c] == t && (['0'] + front) + [c] == ['0'] + t;
      ZeroBefore(front, base);
      ValueStep(front, c, base);
      ValueStep(['0'] + front, c, base);
    }
  }

  /** Without a hexadecimal digit behind it, "0x" reads as 0, and reading stops at the x. */
  lemma LonePrefix(s: string, p: nat, modulus: nat)
    requires CString(s) && p + 2 < |s| && s[p] == '0' && s[p + 1] == 'x' && !ReadableDigit(s[p + 2], 16) && modulus > 0
    ensures ParseUnsigned(s, p, 0, modulus) == Parsed(0, p + 1)
  {
    BaseZero(s, p, modulus);
    ReadsUnsigned(s, p, 8, modulus);
    RunIs(s, p, p + 1, 8);
    assert s[p..p + 1] == ['0'];
    assert Denoted(['0'], 8) == Denoted("", 8) * 8 + DigitOf('0') by {
      DenotedMore("", '0', 8);
      assert "" + ['0'] == ['0'];
    }
    QuotientUnique(0, modulus, 0, 0);
  }

  /** What vsnprintf prints for an integer without width and precision. */
  function Plain(num: int64, base: nat, f: Flags): string
    requires 2 <= base <= 36
  {
    FieldText(num, base, -1, -1, f)
  }

  lemma PlainText(num: int64, base: nat, f: Flags)
    requires 2 <= base <= 36
    ensures Plain(num, base, f) == SignText(num, f) + Prefix(base, f) + Digits(Magnitude(num, f), base, f.large)
  {
    var d := Digits(Magnitude(num, f), base, f.large);
    var pad := Padding(num, base, -1, -1, f);
    assert pad <= 0 && -1 - |d| <= 0;
    assert Repeat(' ', pad) == "" && Repeat('0', pad) == "" && Repeat('0', -1 - |d|) == "";
    assert Repeat(' ', 0) == "" && Repeat('0', 0) == "";
    hide Padding, Digits, Magnitude, SignText, Prefix, Repeat;
    var x, y := SignText(num, f), Prefix(base, f);
    assert Plain(num, base, f) == "" + "" + x + y + "" + "" + d + "";
    NothingAround(x, y, d);
  }

  lemma NothingAround(x: string, y: string, d: string)
    ensures "" + "" + x + y + "" + "" + d + "" == x + y + d
  {
  }

  const SIGNED := NO_FLAGS.(sign := true)

  /** simple_strtoll reads back every signed 64-bit number that number prints, the least
      one included, and stops at the end of its text. */
  lemma SignedRoundTrip(n: int64)
    ensures var text := Plain(n, 10, SIGNED);
      ParseSigned(text + [NUL], 0, 10, TWO_64) == Parsed(n, |text|)
  {
    var m, text := Magnitude(n, SIGNED), Plain(n, 10, SIGNED);
    var s := text + [NUL];
    PlainText(n, 10, SIGNED);
    DigitsAccepted(m, 10, false);
    var p := if n < 0 then 1 else 0;
    assert s[p..p + |Digits(m, 10, false)|] == Digits(m, 10, false);
    ReadDigits(s, p, m, 10, false, TWO_64);
    if n < 0 {
      assert s[0] == '-';
      QuotientUnique(TWO_64 - m, TWO_64, 0, TWO_64 - m);
    } else {
      assert s[0] == Digits(m, 10, false)[0];
    }
  }

  // Digits alone in a string: where reading them stops, and with what value.
  lemma ReadAlone(m: uint64, base: nat, large: bool)
    requires 2 <= base <= 36
    ensures var d := Digits(m, base, large);
      var r := ParseUnsigned(d + [NUL], 0, base, TWO_64);
      && (r.end == |d| <==> forall k :: 0 <= k < |d| ==> IsXdigit(d[k]))
      && (if r.end == |d| then r.value == m else r.value < m)
  {
    var d := Digits(m, base, large);
    var s := d + [NUL];
    var e := RunEnd(s, 0, base);
    assert forall k :: 0 <= k < e ==> s[k] == d[k];
    if e < |d| {
      assert s[e] == d[e];
      AcceptsMeansXdigit(m, base, large, e);
    }
    PrefixValue(m, base, large, e);
    assert s[0..e] == d[..e];
    assert d[..|d|] == d;
    hide Digits, Value, RunEnd;
    WrapSmall(Value(d[..e], base), TWO_64);
  }

  /** simple_strtoull reads back what number prints, in every base from 2 to 36, exactly
      when all the digits are ones it knows: those up to f. */
  lemma {:induction false} UnsignedRoundTrip(num: int64, base: nat, large: bool)
    requires 2 <= base <= 36
    ensures var f := NO_FLAGS.(large := large);
      var text := Plain(num, base, f);
      var r := ParseUnsigned(text + [NUL], 0, base, TWO_64);
      && (r == Parsed(Magnitude(num, f), |text|) <==> forall k :: 0 <= k < |text| ==> IsXdigit(text[k]))
      && (r.value == Magnitude(num, f) <==> r.end == |text|)
  {
    var f := NO_FLAGS.(large := large);
    PlainText(num, base, f);
    assert Plain(num, base, f) == Digits(Magnitude(num, f), base, large);
    ReadAlone(Magnitude(num, f), base, large);
    hide *;
  }

  // In the base they are printed in, digits are refused only for not being up to f.
  lemma {:induction false} AcceptsMeansXdigit(m: nat, base: nat, large: bool, k: nat)
    requires 2 <= base <= 36 && k < |Digits(m, base, large)|
    ensures Accepts(Digits(m, base, large)[k], base) <==> IsXdigit(Digits(m, base, large)[k])
    decreases m
  {
    if m < base {
      DigitAccepted(m, large);
    } else {
      DigitsSplit(m, base, large);
      DigitAccepted(m % base, large);
      if k < |Digits(m / base, base, large)| {
        AcceptsMeansXdigit(m / base, base, large, k);
      }
    }
  }

  /** In bases up to 16 every digit is one simple_strtoull knows. */
  lemma UnsignedRoundTripTo16(num: int64, base: nat, large: bool)
    requires 2 <= base <= 16
    ensures var f := NO_FLAGS.(large := large);
      ParseUnsigned(Plain(num, base, f) + [NUL], 0, base, TWO_64) == Parsed(Magnitude(num, f), |Plain(num, base, f)|)
  {
    var f := NO_FLAGS.(large := large);
    PlainText(num, base, f);
    DigitsAccepted(Magnitude(num, f), base, large);
    UnsignedRoundTrip(num, base, large);
  }

  // Base 0 finds base b, and the digits d of m behind pre.
  lemma FindsBase(pre: string, m: uint64, b: nat, large: bool)
    requires b == 8 || b == 10 || b == 16
    requires pre == if b == 8 then "0" else if b == 16 then "0x" else ""
    ensures var d := Digits(m, b, large);
      ParseUnsigned(pre + d + [NUL], 0, 0, TWO_64) == Parsed(m, |pre + d|)
  {
    var d := Digits(m, b, large);
    var s := pre + d + [NUL];
    FirstDigit(m, b, large);
    DigitsAccepted(m, b, large);
    var k, n := |pre|, |pre| + |d|;
    assert s[k] == d[0] && Accepts(d[0], b) && (k > 0 ==> s[0] == '0') && (k > 1 ==> s[1] == 'x');
    assert s[k..n] == d && s[n] == NUL && |pre + d| == n;
    hide Digits, Value, RunEnd;
    ReadDigits(s, k, m, b, large, TWO_64);
    if b == 10 && m == 0 {
      assert s == ['0', NUL];
      LoneZero();
    } else {
      assert BaseAt(s, 0, 0) == b;
      assert StartAt(s, 0, 0) == k == StartAt(s, k, b) && BaseAt(s, k, b) == b;
      hide *;
      SameStart(s, 0, 0, k, b);
    }
  }

  // Reading goes on alike from the digits in the base that was found.
  lemma SameStart(s: string, p: nat, base: nat, k: nat, b: nat)
    requires CString(s) && p < |s| && k < |s|
    requires StartAt(s, p, base) == StartAt(s, k, b) && BaseAt(s, p, base) == BaseAt(s, k, b)
    ensures ParseUnsigned(s, p, base, TWO_64) == ParseUnsigned(s, k, b, TWO_64)
  {
    hide StartAt, BaseAt, RunEnd, Value, Wrap;
  }

  lemma LoneZero()
    ensures ParseUnsigned(['0', NUL], 0, 0, TWO_64) == Parsed(0, 1)
  {
    var s := ['0', NUL];
    RunIs(s, 1, 1, 8);
    assert s[1..1] == "";
    NoValue(8);
  }

  lemma NoValue(base: nat)
    ensures Value("", base) == 0
  {
  }

  // A capital X is no base prefix.
  lemma CapitalPrefix(d: string)
    ensures ParseUnsigned("0X" + d + [NUL], 0, 0, TWO_64) == Parsed(0, 1)
  {
    var s := "0X" + d + [NUL];
    assert s[0] == '0' && s[1] == 'X';
    RunIs(s, 1, 1, 8);
    assert s[1..1] == "";
  }

  /** With base 0, simple_strtoull finds the base itself: it reads back plain decimal and
      prefixed octal and hexadecimal, exactly unless the prefix is "0X". */
  lemma BaseZeroRoundTrip(num: int64, base: nat, large: bool)
    requires base == 8 || base == 10 || base == 16
    ensures var f := NO_FLAGS.(special := true, large := large);
      var text := Plain(num, base, f);
      ParseUnsigned(text + [NUL], 0, 0, TWO_64) == Parsed(Magnitude(num, f), |text|)
      <==> !(base == 16 && large)
  {
    var f := NO_FLAGS.(special := true, large := large);
    var d, pre := Digits(Magnitude(num, f), base, large), Prefix(base, f);
    PlainText(num, base, f);
    assert Plain(num, base, f) == pre + d;
    if base == 16 && large {
      CapitalPrefix(d);
    } else {
      FindsBase(pre, Magnitude(num, f), base, large);
    }
  }
}
