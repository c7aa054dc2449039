/** Reading one integer: simple_strtoul, simple_strtol, simple_strtoull and
    simple_strtoll of lib/vsprintf.c, lines 21-107. */
module Parse {
  import opened Ctype
  import opened Number

  /** A string in memory: the characters up to and including the last NUL that may be
      read. Reading stops at the first NUL. */
  predicate CString(s: string) {
    |s| > 0 && s[|s| - 1] == NUL
  }

  function DigitValue(c: char): nat {
    if IsDigit(c) then c as int - 48 else if IsXdigit(c) then ToUpper(c) as int - 65 + 10 else 0
  }

  predicate Accepts(c: char, base: nat) {
    IsXdigit(c) && DigitValue(c) < base
  }

  // One more digit behind a number.
  function Append(v: nat, base: nat, d: nat): nat {
    v * base + d
  }

  function Wrap(v: nat, modulus: nat): (r: nat)
    requires modulus > 0
    ensures r < modulus
  {
    v % modulus
  }

  /** The value of a run of accepted digits. */
  function Value(s: string, base: nat): nat {
    if s == "" then 0 else Append(Value(s[..|s| - 1], base), base, DigitValue(s[|s| - 1]))
  }

  /** Where the run of accepted digits that starts at p ends. */
  function RunEnd(s: string, p: nat, base: nat): (e: nat)
    requires CString(s) && p < |s|
    ensures p <= e < |s| && !Accepts(s[e], base)
    ensures forall k :: p <= k < e ==> Accepts(s[k], base)
    decreases |s| - p
  {
    if Accepts(s[p], base) then RunEnd(s, p + 1, base) else p
  }

  /** Base 0 means: octal after "0", hexadecimal after "0x" and a digit, else decimal. */
  function BaseAt(s: string, p: nat, base: nat): nat
    requires CString(s) && p < |s|
  {
    if base != 0 then base
    else if s[p] != '0' then 10
    else if s[p + 1] == 'x' && IsXdigit(s[p + 2]) then 16
    else 8
  }

  function StartAt(s: string, p: nat, base: nat): (q: nat)
    requires CString(s) && p < |s|
    ensures p <= q < |s|
  {
    if base != 0 || s[p] != '0' then p
    else if s[p + 1] == 'x' && IsXdigit(s[p + 2]) then p + 2
    else p + 1
  }

  datatype Parsed = Parsed(value: int, end: nat)

  function ParseUnsigned(s: string, p: nat, base: nat, modulus: nat): (r: Parsed)
    requires CString(s) && p < |s| && modulus > 0
    ensures p <= r.end < |s| && 0 <= r.value < modulus
  {
    var q, b := StartAt(s, p, base), BaseAt(s, p, base);
    var e := RunEnd(s, q, b);
    Parsed(Wrap(Value(s[q..e], b), modulus), e)
  }

  /** The bits of x, read as a signed number. */
  function ToSigned(x: int, modulus: nat): int {
    if x >= modulus / 2 then x - modulus else x
  }

  function ParseSigned(s: string, p: nat, base: nat, modulus: nat): (r: Parsed)
    requires CString(s) && p < |s| && modulus > 0
    ensures p <= r.end < |s|
  {
    if s[p] == '-' then
      var u := ParseUnsigned(s, p + 1, base, modulus);
      u.(value := ToSigned((modulus - u.value) % modulus, modulus))
    else
      var u := ParseUnsigned(s, p, base, modulus);
      u.(value := ToSigned(u.value, modulus))
  }

  // ---------- the methods ----------

  lemma ModStep(v: nat, r: nat, base: nat, d: nat, modulus: nat)
    requires modulus > 0 && r == Wrap(v, modulus)
    ensures Wrap(Append(r, base, d), modulus) == Wrap(Append(v, base, d), modulus)
  {
    var k := v / modulus;
    assert v == k * modulus + r;
    var x := r * base + d;
    QuotientAtMost(x, modulus);
    var q := x / modulus;
    assert v * base + d == (k * base + q) * modulus + x % modulus by {
      assert k * modulus * base == k * base * modulus;
      assert (k * base + q) * modulus == k * base * modulus + q * modulus;
    }
    QuotientUnique(v * base + d, modulus, k * base + q, x % modulus);
  }

  lemma ValueStep(s: string, c: char, base: nat)
    ensures Value(s + [c], base) == Append(Value(s, base), base, DigitValue(c))
  {
    assert (s + [c])[..|s|] == s;
  }

  lemma RunStops(s: string, cp: nat, base: nat)
    requires CString(s) && cp < |s| && !Accepts(s[cp], base)
    ensures RunEnd(s, cp, base) == cp
  {
  }

  // One iteration of the loop.
  lemma RunStep(s: string, q: nat, cp: nat, base: nat, modulus: nat)
    requires CString(s) && q <= cp < |s| && modulus > 0 && Accepts(s[cp], base)
    ensures cp + 1 < |s| && RunEnd(s, cp, base) == RunEnd(s, cp + 1, base)
    ensures Wrap(Append(Wrap(Value(s[q..cp], base), modulus), base, DigitValue(s[cp])), modulus)
         == Wrap(Value(s[q..cp + 1], base), modulus)
  {
    var v := Value(s[q..cp], base);
    ModStep(v, Wrap(v, modulus), base, DigitValue(s[cp]), modulus);
    ValueStep(s[q..cp], s[cp], base);
    assert s[q..cp + 1] == s[q..cp] + [s[cp]];
  }

  /** simple_strtoul for modulus 2^32 and simple_strtoull for modulus 2^64. */
  method SimpleStrtou(s: string, p: nat, base: nat, modulus: nat) returns (result: nat, endp: nat)
    requires CString(s) && p < |s| && modulus > 0
    ensures Parsed(result, endp) == ParseUnsigned(s, p, base, modulus)
  {
    var cp, b := p, base;
    if b == 0 {
      b := 10;
      if s[cp] == '0' {
        b := 8;
        cp := cp + 1;
        if s[cp] == 'x' && IsXdigit(s[cp + 1]) {
          cp := cp + 1;
          b := 16;
        }
      }
    }
    ghost var q := cp;
    assert q == StartAt(s, p, base) && b == BaseAt(s, p, base);
    hide StartAt, BaseAt, CString, Append, DigitValue, RunEnd;
    assert s[q..q] == "" && Wrap(Value(s[q..q], b), modulus) == 0;
    hide Wrap, Value;
    result := 0;
    while IsXdigit(s[cp]) && DigitValue(s[cp]) < b
      invariant q <= cp < |s| && RunEnd(s, cp, b) == RunEnd(s, q, b)
      invariant result == Wrap(Value(s[q..cp], b), modulus)
      decreases |s| - cp
    {
      RunStep(s, q, cp, b, modulus);
      result := Wrap(Append(result, b, DigitValue(s[cp])), modulus);
      cp := cp + 1;
    }
    endp := cp;
    assert RunEnd(s, cp, b) == cp by { RunStops(s, cp, b); }
  }

  /** simple_strtol for modulus 2^32 and simple_strtoll for modulus 2^64. */
  method SimpleStrto(s: string, p: nat, base: nat, modulus: nat) returns (result: int, endp: nat)
    requires CString(s) && p < |s| && modulus > 0
    ensures Parsed(result, endp) == ParseSigned(s, p, base, modulus)
  {
    if s[p] == '-' {
      result, endp := SimpleStrtou(s, p + 1, base, modulus);
      result := ToSigned((modulus - result) % modulus, modulus);
    } else {
      result, endp := SimpleStrtou(s, p, base, modulus);
      result := ToSigned(result, modulus);
    }
  }
}
