/** vsscanf: lib/vsprintf.c, lines 517-695. */
module Scanf {
  import opened Ctype
  import opened Number
  import opened Parse
  import opened RoundTrip
  import opened Printf
  import opened Conversions

  /** What is stored through one pointer argument: an integer, or characters with or
      without a NUL behind them. */
  datatype Stored = Int(v: int) | Chars(s: string, terminated: bool)

  /** The stores in the order of the arguments, and the number that is returned. */
  datatype Scanned = Scanned(stores: seq<Stored>, num: nat)

  // ---------- stretches of input ----------

  function SkipSpace(s: string, p: nat): (q: nat)
    requires CString(s) && p < |s|
    ensures p <= q < |s| && !IsSpace(s[q])
    decreases |s| - p
  {
    if IsSpace(s[p]) then SkipSpace(s, p + 1) else p
  }

  function SkipWord(s: string, p: nat): (q: nat)
    requires CString(s) && p < |s|
    ensures p <= q < |s|
    decreases |s| - p
  {
    if !IsSpace(s[p]) && s[p] != NUL then SkipWord(s, p + 1) else p
  }

  /** Where copying for %c stops that still may copy width characters behind the one at
      p - 1, and the field width it leaves. */
  function CharsEnd(s: string, p: nat, width: int): (r: (nat, int))
    requires CString(s) && p < |s|
    ensures p <= r.0 < |s|
    decreases |s| - p
  {
    if width > 0 && s[p] != NUL then CharsEnd(s, p + 1, width - 1) else (p, width - 1)
  }

  /** The same for %s. The width is counted down only before a character that could be copied. */
  function WordEnd(s: string, p: nat, width: int): (r: (nat, int))
    requires CString(s) && p < |s|
    ensures p <= r.0 < |s|
    decreases |s| - p
  {
    if s[p] == NUL || IsSpace(s[p]) then (p, width)
    else if width == 0 then (p, width - 1)
    else WordEnd(s, p + 1, width - 1)
  }

  // ---------- one round of the main loop ----------

  const INT_MAX: int := 0x7FFF_FFFF

  /** The cursors in the input and in the format, and the field width, which is never reset. */
  datatype Cursor = Cursor(a: nat, b: nat, width: int)

  /** A round ends the scan, or goes on at a cursor after some stores, counted or not. */
  datatype Outcome = Stop | Go(next: Cursor, stores: seq<Stored>, counted: nat)

  /** The value stored for digits that start at p: the reader for the qualifier, and the
      cast to the type of the argument. */
  function ReadInt(s: string, p: nat, qualifier: char, signed: bool, base: nat): (r: Parsed)
    requires CString(s) && p < |s|
    ensures p <= r.end < |s|
  {
    if qualifier == 'L' then
      if signed then ParseSigned(s, p, base, TWO_64) else ParseUnsigned(s, p, base, TWO_64)
    else if qualifier == 'h' then
      if signed then
        var u := ParseSigned(s, p, base, TWO_32); u.(value := Signed(u.value, TWO_16))
      else
        var u := ParseUnsigned(s, p, base, TWO_32); u.(value := Unsigned(u.value, TWO_16))
    else if signed && qualifier != 'Z' then ParseSigned(s, p, base, TWO_32)
    else ParseUnsigned(s, p, base, TWO_32)
  }

  /** The conversion c, with the format cursor behind it. */
  function Convert(s: string, c: char, qualifier: char, at: Cursor): (r: Outcome)
    requires CString(s) && at.a < |s| && s[at.a] != NUL
    ensures r.Go? ==> at.a <= r.next.a < |s| && r.next.b == at.b
  {
    if c == 'c' then
      var (e, w) := CharsEnd(s, at.a + 1, if at.width == -1 then 1 else at.width);
      Go(Cursor(e, at.b, w), [Chars(s[at.a..e], false)], 1)
    else if c == 's' then
      var p := SkipSpace(s, at.a);
      var (e, w) := WordEnd(s, p, if at.width == -1 then INT_MAX else at.width);
      Go(Cursor(e, at.b, w), [Chars(s[p..e], true)], 1)
    else if c == 'n' then Go(at, [Int(at.a)], 0)
    else if c == '%' then if s[at.a] == '%' then Go(at.(a := at.a + 1), [], 0) else Stop
    else if !IsInteger(c) then Stop
    else
      var p := SkipSpace(s, at.a);
      if !IsDigit(s[p]) then Stop
      else
        var r := ReadInt(s, p, qualifier, c == 'd' || c == 'i', BaseOf(c));
        Go(at.(a := r.end), [Int(r.value)], 1)
  }

  /** The directive whose '%' is just before at.b. */
  function DirectiveStep(s: string, fmt: string, at: Cursor): (r: Outcome)
    requires CString(s) && CString(fmt) && at.a < |s| && at.b < |fmt|
    ensures r.Go? ==> r.next.a < |s| && at.b <= r.next.b < |fmt|
  {
    if fmt[at.b] == '*' then Go(at.(a := SkipWord(s, at.a), b := SkipWord(fmt, at.b)), [], 0)
    else
      var (w, b) := if IsDigit(fmt[at.b]) then AtoiAt(fmt, at.b, 0) else (at.width, at.b);
      var (q, b') := if IsQualifier(fmt[b]) then (fmt[b], b + 1) else (NUL, b);
      if fmt[b'] == NUL || s[at.a] == NUL then Stop
      else Convert(s, fmt[b'], q, Cursor(at.a, b' + 1, w))
  }

  function StepAt(s: string, fmt: string, at: Cursor): (r: Outcome)
    requires CString(s) && CString(fmt) && at.a < |s| && at.b < |fmt| && s[at.a] != NUL && fmt[at.b] != NUL
    ensures r.Go? ==> r.next.a < |s| && at.b < r.next.b < |fmt|
  {
    var (a, b) := if IsSpace(fmt[at.b]) then (SkipSpace(s, at.a), SkipSpace(fmt, at.b)) else (at.a, at.b);
    if fmt[b] == NUL then Stop
    else if fmt[b] != '%' then
      if fmt[b] == s[a] then Go(Cursor(a + 1, b + 1, at.width), [], 0) else Stop
    else DirectiveStep(s, fmt, Cursor(a, b + 1, at.width))
  }

  /** The whole scan from a cursor on. */
  function ScanFrom(s: string, fmt: string, at: Cursor): Scanned
    requires CString(s) && CString(fmt) && at.a < |s| && at.b < |fmt|
    decreases |fmt| - at.b
  {
    if s[at.a] == NUL || fmt[at.b] == NUL then Scanned([], 0)
    else
      var r := StepAt(s, fmt, at);
      if r.Stop? then Scanned([], 0)
      else
        var rest := ScanFrom(s, fmt, r.next);
        Scanned(r.stores + rest.stores, r.counted + rest.num)
  }

  function Scan(s: string, fmt: string): Scanned
    requires CString(s) && CString(fmt)
  {
    ScanFrom(s, fmt, Cursor(0, 0, -1))
  }

  // ---------- the methods ----------

  method PassSpace(s: string, p: nat) returns (q: nat)
    requires CString(s) && p < |s|
    ensures q == SkipSpace(s, p)
  {
    q := p;
    while IsSpace(s[q])
      invariant p <= q < |s| && SkipSpace(s, q) == SkipSpace(s, p)
      decreases |s| - q
    {
      q := q + 1;
    }
  }

  method PassWord(s: string, p: nat) returns (q: nat)
    requires CString(s) && p < |s|
    ensures q == SkipWord(s, p)
  {
    q := p;
    while !IsSpace(s[q]) && s[q] != NUL
      invariant p <= q < |s| && SkipWord(s, q) == SkipWord(s, p)
      decreases |s| - q
    {
      q := q + 1;
    }
  }

  /** do *s++ = *str++; while (field_width-- > 0 && *str) */
  method CopyChars(s: string, p: nat, width: int) returns (copy: string, q: nat, left: int)
    requires CString(s) && p < |s| && s[p] != NUL
    ensures (q, left) == CharsEnd(s, p + 1, width) && copy == s[p..q]
  {
    copy, q, left := [s[p]], p + 1, width;
    while left > 0 && s[q] != NUL
      invariant p < q < |s| && CharsEnd(s, q, left) == CharsEnd(s, p + 1, width) && copy == s[p..q]
      decreases |s| - q
    {
      copy := copy + [s[q]];
      q, left := q + 1, left - 1;
    }
    left := left - 1;
  }

  /** while (*str && !isspace(*str) && field_width--) *s++ = *str++ */
  method CopyWord(s: string, p: nat, width: int) returns (copy: string, q: nat, left: int)
    requires CString(s) && p < |s|
    ensures (q, left) == WordEnd(s, p, width) && copy == s[p..q]
  {
    copy, q, left := "", p, width;
    while s[q] != NUL && !IsSpace(s[q]) && left != 0
      invariant p <= q < |s| && WordEnd(s, q, left) == WordEnd(s, p, width) && copy == s[p..q]
      decreases |s| - q
    {
      copy := copy + [s[q]];
      q, left := q + 1, left - 1;
    }
    if s[q] != NUL && !IsSpace(s[q]) {
      left := left - 1;
    }
  }

  method ReadInteger(s: string, p: nat, qualifier: char, signed: bool, base: nat) returns (v: int, next: nat)
    requires CString(s) && p < |s|
    ensures Parsed(v, next) == ReadInt(s, p, qualifier, signed, base)
  {
    if qualifier == 'h' {
      if signed {
        v, next := SimpleStrto(s, p, base, TWO_32);
        v := Signed(v, TWO_16);
      } else {
        v, next := SimpleStrtou(s, p, base, TWO_32);
        v := Unsigned(v, TWO_16);
      }
    } else if qualifier == 'L' {
      if signed {
        v, next := SimpleStrto(s, p, base, TWO_64);
      } else {
        v, next := SimpleStrtou(s, p, base, TWO_64);
      }
    } else if qualifier == 'Z' || !signed {
      v, next := SimpleStrtou(s, p, base, TWO_32);
    } else {
      v, next := SimpleStrto(s, p, base, TWO_32);
    }
  }

  /** The switch over the conversion characters. */
  method ConvertOne(s: string, c: char, qualifier: char, at: Cursor) returns (r: Outcome)
    requires CString(s) && at.a < |s| && s[at.a] != NUL
    ensures r == Convert(s, c, qualifier, at)
  {
    var width, base, signed := at.width, 10, false;
    if c == 'c' {
      if width == -1 {
        width := 1;
      }
      var copy, q, left := CopyChars(s, at.a, width);
      return Go(Cursor(q, at.b, left), [Chars(copy, false)], 1);
    } else if c == 's' {
      if width == -1 {
        width := INT_MAX;
      }
      var p := PassSpace(s, at.a);
      var copy, q, left := CopyWord(s, p, width);
      return Go(Cursor(q, at.b, left), [Chars(copy, true)], 1);
    } else if c == 'n' {
      return Go(at, [Int(at.a)], 0);
    } else if c == 'o' {
      base := 8;
    } else if c == 'x' || c == 'X' {
      base := 16;
    } else if c == 'd' || c == 'i' {
      signed := true;
    } else if c == '%' {
      if s[at.a] != '%' {
        return Stop;
      }
      return Go(at.(a := at.a + 1), [], 0);
    } else if c != 'u' {
      return Stop;
    }
    var p := PassSpace(s, at.a);
    if s[p] == NUL || !IsDigit(s[p]) {
      return Stop;
    }
    var v, next := ReadInteger(s, p, qualifier, signed, base);
    r := Go(at.(a := next), [Int(v)], 1);
  }

  /** One directive: suppression, field width, qualifier and conversion. */
  method ScanDirective(s: string, fmt: string, at: Cursor) returns (r: Outcome)
    requires CString(s) && CString(fmt) && at.a < |s| && at.b < |fmt|
    ensures r == DirectiveStep(s, fmt, at)
  {
    hide Convert;
    var b, width, qualifier := at.b, at.width, NUL;
    if fmt[b] == '*' {
      b := PassWord(fmt, b);
      var a := PassWord(s, at.a);
      return Go(Cursor(a, b, width), [], 0);
    }
    if IsDigit(fmt[b]) {
      width, b := SkipAtoi(fmt, b);
    }
    if IsQualifier(fmt[b]) {
      qualifier := fmt[b];
      b := b + 1;
    }
    if fmt[b] == NUL || s[at.a] == NUL {
      return Stop;
    }
    r := ConvertOne(s, fmt[b], qualifier, Cursor(at.a, b + 1, width));
  }

  /** The body of the main loop: white space, then a character to match or a directive. */
  method ScanOne(s: string, fmt: string, at: Cursor) returns (r: Outcome)
    requires CString(s) && CString(fmt) && at.a < |s| && at.b < |fmt| && s[at.a] != NUL && fmt[at.b] != NUL
    ensures r == StepAt(s, fmt, at)
  {
    hide DirectiveStep;
    var a, b := at.a, at.b;
    if IsSpace(fmt[b]) {
      b := PassSpace(fmt, b);
      a := PassSpace(s, a);
    }
    if fmt[b] != '%' && fmt[b] != NUL {
      return if fmt[b] != s[a] then Stop else Go(Cursor(a + 1, b + 1, at.width), [], 0);
    }
    if fmt[b] == NUL {
      return Stop;
    }
    r := ScanDirective(s, fmt, Cursor(a, b + 1, at.width));
  }

  lemma ScanNext(s: string, fmt: string, at: Cursor, before: seq<Stored>, num: nat)
    requires CString(s) && CString(fmt) && at.a < |s| && at.b < |fmt| && s[at.a] != NUL && fmt[at.b] != NUL
    ensures StepAt(s, fmt, at).Stop? ==> ScanFrom(s, fmt, at) == Scanned([], 0)
    ensures StepAt(s, fmt, at).Go? ==>
      var r, all := StepAt(s, fmt, at), ScanFrom(s, fmt, at);
      var rest := ScanFrom(s, fmt, r.next);
      before + all.stores == before + r.stores + rest.stores && num + all.num == num + r.counted + rest.num
  {
  }

  /** vsscanf: what it stores and the number it returns are those of Scan. */
  method Vsscanf(s: string, fmt: string) returns (stores: seq<Stored>, num: nat)
    requires CString(s) && CString(fmt)
    ensures Scanned(stores, num) == Scan(s, fmt)
  {
    var at := Cursor(0, 0, -1);
    stores, num := [], 0;
    hide StepAt;
    while fmt[at.b] != NUL && s[at.a] != NUL
      invariant at.a < |s| && at.b < |fmt|
      invariant stores + ScanFrom(s, fmt, at).stores == Scan(s, fmt).stores
      invariant num + ScanFrom(s, fmt, at).num == Scan(s, fmt).num
      decreases |fmt| - at.b
    {
      ScanNext(s, fmt, at, stores, num);
      var r := ScanOne(s, fmt, at);
      if r.Stop? {
        break;
      }
      at, stores, num := r.next, stores + r.stores, num + r.counted;
    }
  }

  // ---------- what the conversions store ----------

  lemma {:induction false} CharsEndIs(s: string, p: nat, width: int)
    requires CString(s) && p < |s|
    ensures var (e, left) := CharsEnd(s, p, width);
      e == p + StrNLen(s[p..], Max(width, 0)) && left == width - 1 - (e - p) && (width >= 0 ==> left >= -1)
    decreases |s| - p
  {
    if width > 0 && s[p] != NUL {
      CharsEndIs(s, p + 1, width - 1);
      assert s[p..][1..] == s[p + 1..];
    }
  }

  // The field width that %c uses. It may be one that an earlier directive has left.
  function CharWidth(width: int): int {
    if width == -1 then 1 else width
  }

  /** %c copies one character more than the field width says, or as many as there are up to
      the end of the input; one at least. The width that is left is less by their number. */
  lemma CharConversion(s: string, qualifier: char, at: Cursor)
    requires CString(s) && at.a < |s| && s[at.a] != NUL
    ensures var n, r := StrNLen(s[at.a..], 1 + Max(CharWidth(at.width), 0)), Convert(s, 'c', qualifier, at);
      && n >= 1 && at.a + n < |s|
      && r.Go? && r.next == Cursor(at.a + n, at.b, CharWidth(at.width) - n)
      && r.stores == [Chars(s[at.a..at.a + n], false)] && r.counted == 1
  {
    CharsEndIs(s, at.a + 1, CharWidth(at.width));
    assert s[at.a..][1..] == s[at.a + 1..];
  }

  // Behind a qualifier, if there is one.
  function PastQualifier(fmt: string, b: nat): (b': nat)
    requires CString(fmt) && b < |fmt|
    ensures b <= b' < |fmt|
  {
    if IsQualifier(fmt[b]) then b + 1 else b
  }

  /** A %c without a width of its own, with any qualifier, copies exactly one character, as
      it should, if and only if an earlier directive has left a width of zero or less, or
      the input ends there. */
  lemma PlainChar(s: string, fmt: string, at: Cursor)
    requires CString(s) && CString(fmt) && at.a < |s| && at.b < |fmt|
    requires fmt[PastQualifier(fmt, at.b)] == 'c' && s[at.a] != NUL
    ensures var r := DirectiveStep(s, fmt, at);
      && r.Go? && at.a < r.next.a < |s| && r.stores == [Chars(s[at.a..r.next.a], false)]
      && (|r.stores[0].s| == 1 <==> CharWidth(at.width) <= 0 || s[at.a + 1] == NUL)
  {
    var b := PastQualifier(fmt, at.b);
    var q := if b == at.b then NUL else fmt[at.b];
    var next := Cursor(at.a, b + 1, at.width);
    CharConversion(s, q, next);
    assert DirectiveStep(s, fmt, at) == Convert(s, 'c', q, next);
    hide DirectiveStep, Convert, CString;
    assert s[at.a..][1..] == s[at.a + 1..];
  }

  /** A %c with a width of its own, whose digits end at e, and any qualifier copies exactly
      that many characters, as it should, if and only if the input has just that many left. */
  lemma WideChar(s: string, fmt: string, at: Cursor, e: nat)
    requires CString(s) && CString(fmt) && at.a < |s| && at.b < e < |fmt| && s[at.a] != NUL
    requires DigitRun(fmt, at.b, e) && fmt[PastQualifier(fmt, e)] == 'c'
    ensures var r, w := DirectiveStep(s, fmt, at), Denoted(fmt[at.b..e], 10);
      && r.Go? && at.a < r.next.a < |s| && r.stores == [Chars(s[at.a..r.next.a], false)]
      && (|r.stores[0].s| == w <==> StrNLen(s[at.a..], w + 1) == w)
  {
    var (w, e') := AtoiAt(fmt, at.b, 0);
    AtoiReads(fmt, at.b);
    OneRun(fmt, at.b, e, e');
    assert IsDigit(fmt[at.b]) && fmt[at.b] != '*';
    var b := PastQualifier(fmt, e);
    var q := if b == e then NUL else fmt[e];
    CharConversion(s, q, Cursor(at.a, b + 1, w));
    hide AtoiAt, Denoted;
    assert DirectiveStep(s, fmt, at) == Convert(s, 'c', q, Cursor(at.a, b + 1, w));
    var most := w + 1;
    assert 1 + Max(CharWidth(w), 0) == most;
    hide DirectiveStep, Convert, StrNLen, CString, PastQualifier;
    assert StrNLen(s[at.a..], 1 + Max(CharWidth(w), 0)) == StrNLen(s[at.a..], most);
  }

  /** Alone in a format, %c copies two characters, unless the input has only one. */
  lemma PlainCharAlone(s: string)
    requires CString(s) && s[0] != NUL
    ensures var copied := if s[1] == NUL then 1 else 2;
      Scan(s, ['%', 'c', NUL]) == Scanned([Chars(s[..copied], false)], 1)
  {
    var fmt := ['%', 'c', NUL];
    var at := Cursor(0, 1, -1);
    var r := DirectiveStep(s, fmt, at);
    PlainChar(s, fmt, at);
    CharConversion(s, NUL, Cursor(0, 2, -1));
    assert s[0..] == s && s[1..][0] == s[1];
    assert s[1] != NUL ==> StrNLen(s[1..], 1) == 1 + StrNLen(s[1..][1..], 0) == 1;
    assert r.next.a == if s[1] == NUL then 1 else 2;
    assert s[0..r.next.a] == s[..r.next.a];
    assert StepAt(s, fmt, Cursor(0, 0, -1)) == r;
    assert ScanFrom(s, fmt, r.next) == Scanned([], 0);
  }

  lemma {:induction false} SpaceSkipped(s: string, p: nat)
    requires CString(s) && p < |s|
    ensures forall k: nat | p <= k < SkipSpace(s, p) :: IsSpace(s[k])
    decreases |s| - p
  {
    if IsSpace(s[p]) {
      SpaceSkipped(s, p + 1);
    }
  }

  // s[p..e] is a word, or its beginning.
  ghost predicate Word(s: string, p: nat, e: nat) {
    p <= e < |s| && forall k: nat | p <= k < e :: !IsSpace(s[k]) && s[k] != NUL
  }

  predicate EndsWord(c: char) {
    IsSpace(c) || c == NUL
  }

  lemma {:induction false} WordEndIs(s: string, p: nat, width: int)
    requires CString(s) && p < |s| && width >= 0
    ensures var (e, left) := WordEnd(s, p, width);
      && Word(s, p, e) && e - p <= width && (EndsWord(s[e]) || e - p == width) && left >= -1
      && left == width - (e - p) - if EndsWord(s[e]) then 0 else 1
    decreases |s| - p
  {
    if !EndsWord(s[p]) && width > 0 {
      WordEndIs(s, p + 1, width - 1);
    }
  }

  /** %s skips white space, and stores the longest run of other characters that the width
      allows, with a NUL behind it. The width that is left is less by their number, and -1
      if it has cut the run off. */
  lemma StringConversion(s: string, qualifier: char, at: Cursor)
    requires CString(s) && at.a < |s| && s[at.a] != NUL && at.width >= -1
    ensures var r, p := Convert(s, 's', qualifier, at), SkipSpace(s, at.a);
      var width := if at.width == -1 then INT_MAX else at.width;
      && r.Go? && r.counted == 1 && p <= r.next.a < |s| && r.stores == [Chars(s[p..r.next.a], true)]
      && (forall k: nat | at.a <= k < p :: IsSpace(s[k])) && !IsSpace(s[p])
      && Word(s, p, r.next.a) && r.next.a - p <= width
      && (EndsWord(s[r.next.a]) || r.next.a - p == width)
      && r.next.b == at.b
      && r.next.width == if EndsWord(s[r.next.a]) then width - (r.next.a - p) else -1
  {
    var p := SkipSpace(s, at.a);
    SpaceSkipped(s, at.a);
    WordEndIs(s, p, if at.width == -1 then INT_MAX else at.width);
    hide WordEnd, SkipSpace, Word, IsSpace;
  }

  lemma {:induction false} WordSkipped(s: string, p: nat)
    requires CString(s) && p < |s|
    ensures Word(s, p, SkipWord(s, p)) && EndsWord(s[SkipWord(s, p)])
    decreases |s| - p
  {
    if !EndsWord(s[p]) {
      WordSkipped(s, p + 1);
    }
  }

  /** A suppressed directive passes the rest of a word in the format and a whole word of the
      input, and stores nothing. */
  lemma Suppressed(s: string, fmt: string, at: Cursor)
    requires CString(s) && CString(fmt) && at.a < |s| && at.b < |fmt| && fmt[at.b] == '*'
    ensures var r := DirectiveStep(s, fmt, at);
      && r.Go? && r.stores == [] && r.counted == 0 && r.next.width == at.width
      && Word(s, at.a, r.next.a) && EndsWord(s[r.next.a])
      && Word(fmt, at.b, r.next.b) && EndsWord(fmt[r.next.b])
  {
    WordSkipped(s, at.a);
    WordSkipped(fmt, at.b);
    hide Word, EndsWord, SkipWord;
  }

  /** The field width never falls below -1, which stands for none. */
  lemma WidthStays(s: string, fmt: string, at: Cursor)
    requires CString(s) && CString(fmt) && at.a < |s| && at.b < |fmt| && s[at.a] != NUL && fmt[at.b] != NUL
    requires at.width >= -1
    ensures var r := StepAt(s, fmt, at); r.Go? ==> r.next.width >= -1
  {
    var (a, b) := if IsSpace(fmt[at.b]) then (SkipSpace(s, at.a), SkipSpace(fmt, at.b)) else (at.a, at.b);
    if fmt[b] == '%' {
      DirectiveKeepsWidth(s, fmt, Cursor(a, b + 1, at.width));
    }
    hide DirectiveStep, SkipSpace;
  }

  lemma DirectiveKeepsWidth(s: string, fmt: string, at: Cursor)
    requires CString(s) && CString(fmt) && at.a < |s| && at.b < |fmt| && at.width >= -1
    ensures var r := DirectiveStep(s, fmt, at); r.Go? ==> r.next.width >= -1
  {
    var (w, b) := if IsDigit(fmt[at.b]) then AtoiAt(fmt, at.b, 0) else (at.width, at.b);
    var (q, b') := if IsQualifier(fmt[b]) then (fmt[b], b + 1) else (NUL, b);
    if s[at.a] != NUL && fmt[b'] != NUL {
      ConvertKeepsWidth(s, fmt[b'], q, Cursor(at.a, b' + 1, w));
    }
    hide Convert, AtoiAt, SkipWord;
  }

  lemma ConvertKeepsWidth(s: string, c: char, q: char, at: Cursor)
    requires CString(s) && at.a < |s| && s[at.a] != NUL && at.width >= -1
    ensures var r := Convert(s, c, q, at); r.Go? ==> r.next.width >= -1
  {
    CharsEndIs(s, at.a + 1, CharWidth(at.width));
    WordEndIs(s, SkipSpace(s, at.a), if at.width == -1 then INT_MAX else at.width);
    hide CharsEnd, WordEnd, SkipSpace, ReadInt, Word, EndsWord;
  }

  // A character of the format that must stand in the input as it is.
  predicate Literal(c: char) {
    c != '%' && !IsSpace(c) && c != NUL
  }

  /** Literal text in the format passes the same text in the input, character by character
      and without a store; where it first differs from the input, the scan ends. */
  lemma {:induction false} LiteralText(s: string, fmt: string, a: nat, b: nat, a2: nat, b2: nat,
                                       x: string, width: int)
    requires CString(s) && CString(fmt) && a <= a2 < |s| && b <= b2 < |fmt|
    requires s[a..a2] == x == fmt[b..b2] && forall c | c in x :: Literal(c)
    ensures ScanFrom(s, fmt, Cursor(a, b, width)) ==
      if Literal(fmt[b2]) && s[a2] != fmt[b2] then Scanned([], 0) else ScanFrom(s, fmt, Cursor(a2, b2, width))
    decreases |x|
  {
    if x != "" {
      var next := Cursor(a + 1, b + 1, width);
      assert s[a] == x[0] == fmt[b] && x[0] in x;
      assert StepAt(s, fmt, Cursor(a, b, width)) == Go(next, [], 0);
      assert s[a + 1..a2] == x[1..] == fmt[b + 1..b2];
      LiteralText(s, fmt, a + 1, b + 1, a2, b2, x[1..], width);
      hide StepAt, Literal;
      assert ScanFrom(s, fmt, Cursor(a, b, width)) == ScanFrom(s, fmt, next);
    } else {
      assert a == a2 && b == b2;
      if Literal(fmt[b2]) && s[a2] != fmt[b2] && s[a2] != NUL {
        assert StepAt(s, fmt, Cursor(a, b, width)) == Stop;
      }
    }
  }
}
