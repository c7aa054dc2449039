/** Formatting one integer: do_div and number of lib/vsprintf.c, lines 7-19 and 118-219. */
module Number {
  import opened Ctype
  import opened Output

  datatype Option<T> = None | Some(value: T)

  const TWO_32: int := 0x1_0000_0000
  const TWO_63: int := 0x8000_0000_0000_0000
  const TWO_64: int := 0x1_0000_0000_0000_0000

  type uint32 = x: int | 0 <= x < TWO_32
  type uint64 = x: int | 0 <= x < TWO_64
  type int64 = x: int | -TWO_63 <= x < TWO_63

  // ---------- do_div ----------

  lemma MulMonotone(x: int, y: int, c: int)
    requires x <= y && 0 <= c
    ensures x * c <= y * c
  {
  }

  lemma {:induction false} QuotientUnique(n: int, b: int, q: int, r: int)
    requires b > 0 && n == q * b + r && 0 <= r < b
    ensures q == n / b && r == n % b
  {
    var q', r' := n / b, n % b;
    assert n == q' * b + r' && 0 <= r' < b;
    if q > q' {
      MulMonotone(q' + 1, q, b);
    } else if q < q' {
      MulMonotone(q + 1, q', b);
    }
  }

  lemma QuotientBelow(n: nat, b: nat, k: nat)
    requires b > 0 && n < b * k
    ensures n / b < k
  {
    var q := n / b;
    assert n == q * b + n % b;
    if q >= k {
      MulMonotone(k, q, b);
    }
  }

  /** divl: edx:eax divided by a register. The hardware demands that the quotient fits
      in 32 bits, which is the case exactly when the upper half is below the divisor. */
  method Divl(upper: uint32, low: uint32, divisor: uint32) returns (quotient: uint32, remainder: uint32)
    requires upper < divisor
    ensures upper * TWO_32 + low == quotient * divisor + remainder && remainder < divisor
  {
    var n := upper * TWO_32 + low;
    assert n < divisor * TWO_32;
    QuotientBelow(n, divisor, TWO_32);
    quotient, remainder := n / divisor, n % divisor;
  }

  // Dividing the upper half first and the remainder with the lower half next.
  lemma {:induction false} LongDivision(n: nat, high: nat, low: nat, base: nat, h: nat, upper: nat, q: nat, r: nat)
    requires base > 0 && n == high * TWO_32 + low
    requires high == h * base + upper && upper * TWO_32 + low == q * base + r && r < base
    ensures h * TWO_32 + q == n / base && r == n % base
  {
    assert h * base * TWO_32 == h * TWO_32 * base;
    assert (h * TWO_32 + q) * base == h * TWO_32 * base + q * base;
    QuotientUnique(n, base, h * TWO_32 + q, r);
  }

  lemma QuotientAtMost(n: nat, base: nat)
    requires base > 0
    ensures 0 <= n / base <= n && 0 <= n % base < base && n == n / base * base + n % base
  {
    MulMonotone(1, base, n + 1);
    QuotientBelow(n, base, n + 1);
  }

  /** do_div: n / base and n % base of a 64-bit n by two 32-bit divisions. */
  method DoDiv(n: uint64, base: uint32) returns (quotient: uint64, remainder: uint32)
    requires base > 0
    ensures quotient == n / base && remainder == n % base
  {
    var low, high := Halves(n);
    var upper := high;
    ghost var whole := high;
    if high != 0 {
      QuotientAtMost(high, base);
      upper, high := high % base, high / base;
    }
    var q, r := Divl(upper, low, base);
    LongDivision(n, whole, low, base, high, upper, q, r);
    QuotientAtMost(n, base);
    quotient, remainder := high * TWO_32 + q, r;
  }

  // edx and eax of a 64-bit value.
  method Halves(n: uint64) returns (low: uint32, high: uint32)
    ensures n == high * TWO_32 + low
  {
    low, high := n % TWO_32, n / TWO_32;
  }

  // ---------- digits ----------

  /** small_digits[d] and large_digits[d] */
  function DigitChar(d: nat, large: bool): char
    requires d < 36
  {
    if d < 10 then (48 + d) as char else if large then (55 + d) as char else (87 + d) as char
  }

  /** The digits of m, most significant first. */
  function Digits(m: nat, base: nat, large: bool): (s: string)
    requires 2 <= base <= 36
    ensures |s| > 0
    decreases m
  {
    QuotientAtMost(m, base);
    if m < base then [DigitChar(m, large)]
    else
      Smaller(m, base);
      Digits(m / base, base, large) + [DigitChar(m % base, large)]
  }

  lemma Smaller(m: nat, base: nat)
    requires 2 <= base <= m
    ensures 0 < m / base < m
  {
    MulMonotone(2, base, m);
    QuotientBelow(m, base, m);
    QuotientAtMost(m, base);
  }

  function Pow(b: nat, k: nat): nat
    decreases k
  {
    if k == 0 then 1 else b * Pow(b, k - 1)
  }

  /** A number below base^k has at most k digits. */
  lemma {:induction false} DigitCount(m: nat, base: nat, large: bool, k: nat)
    requires 2 <= base <= 36 && k > 0 && m < Pow(base, k)
    ensures |Digits(m, base, large)| <= k
    decreases k
  {
    if m >= base {
      Smaller(m, base);
      assert Pow(base, k) == base * Pow(base, k - 1);
      QuotientBelow(m, base, Pow(base, k - 1));
      assert Pow(base, 0) == 1;
      if k > 1 {
        DigitCount(m / base, base, large, k - 1);
      }
    }
  }

  lemma {:induction false} PowMonotone(b: nat, c: nat, k: nat)
    requires b <= c
    ensures Pow(b, k) <= Pow(c, k)
    decreases k
  {
    if k > 0 {
      PowMonotone(b, c, k - 1);
      MulMonotone(b, c, Pow(b, k - 1));
      MulMonotone(Pow(b, k - 1), Pow(c, k - 1), c);
    }
  }

  lemma Pow2Is64()
    ensures Pow(2, 64) == TWO_64
  {
    assert Pow(2, 8) == 256;
    PowSum(2, 8, 8);
    PowSum(2, 16, 16);
    PowSum(2, 32, 32);
  }

  lemma {:induction false} PowSum(b: nat, j: nat, k: nat)
    ensures Pow(b, j + k) == Pow(b, j) * Pow(b, k)
    decreases j
  {
    if j > 0 {
      PowSum(b, j - 1, k);
      var i := j + k;
      assert Pow(b, i) == b * Pow(b, i - 1) && i - 1 == j - 1 + k && Pow(b, j) == b * Pow(b, j - 1);
      Regroup(b, Pow(b, j - 1), Pow(b, k));
      hide Pow;
    }
  }

  lemma Regroup(x: int, y: int, z: int)
    ensures x * (y * z) == x * y * z
  {
  }

  /** The digits of a 64-bit number fit in tmp, with room for 64 of them. */
  lemma DigitsFit(m: uint64, base: nat, large: bool)
    requires 2 <= base <= 36
    ensures |Digits(m, base, large)| <= 64
  {
    Pow2Is64();
    PowMonotone(2, base, 64);
    DigitCount(m, base, large, 64);
  }

  // ---------- number ----------

  /** The flag bits of number's type argument. */
  datatype Flags = Flags(zeropad: bool, sign: bool, plus: bool, space: bool, left: bool, special: bool, large: bool)

  const NO_FLAGS := Flags(false, false, false, false, false, false, false)

  /** What is printed for num: its absolute value if the sign counts, and otherwise the
      64 bits of it as an unsigned number. */
  function Magnitude(num: int64, f: Flags): uint64 {
    var n: int := num;
    if n >= 0 then n else if f.sign then 0 - n else n + TWO_64
  }

  function SignText(num: int64, f: Flags): string {
    if !f.sign then ""
    else if num < 0 then "-"
    else if f.plus then "+"
    else if f.space then " "
    else ""
  }

  function Prefix(base: nat, f: Flags): string {
    if !f.special then ""
    else if base == 8 then "0"
    else if base == 16 then if f.large then "0X" else "0x"
    else ""
  }

  // How many characters of padding fill the field to its width.
  function Padding(num: int64, base: nat, size: int, precision: int, f: Flags): int
    requires 2 <= base <= 36
  {
    var digits := |Digits(Magnitude(num, f), base, f.large)|;
    size - |SignText(num, f)| - |Prefix(base, f)| - (if digits > precision then digits else precision)
  }

  /** What is behind done once a field has been added: padding on the left with spaces,
      sign, base prefix, padding with zeros, precision zeros, digits, padding on the right. */
  function WithField(done: string, pad: int, f: Flags, sign: string, prefix: string, zeros: int, digits: string)
    : string
  {
    done + Repeat(' ', if f.left || f.zeropad then 0 else pad) + sign + prefix
    + Repeat('0', if f.left || !f.zeropad then 0 else pad) + Repeat('0', zeros) + digits
    + Repeat(' ', if f.left then pad else 0)
  }

  lemma FieldBehind(done: string, pad: int, f: Flags, sign: string, prefix: string, zeros: int, digits: string)
    ensures WithField(done, pad, f, sign, prefix, zeros, digits)
         == done + WithField("", pad, f, sign, prefix, zeros, digits)
  {
  }

  // number clears ZEROPAD when LEFT is set, and raises the precision to the digit count.
  lemma SameField(done: string, pad: int, f: Flags, sign: string, prefix: string,
                  precision: int, n: nat, digits: string)
    ensures var f' := if f.left then f.(zeropad := false) else f;
      WithField(done, pad, f', sign, prefix, (if n > precision then n else precision) - n, digits)
      == WithField(done, pad, f, sign, prefix, precision - n, digits)
  {
    assert Repeat('0', (if n > precision then n else precision) - n) == Repeat('0', precision - n);
  }

  /** The text of an integer field. */
  function FieldText(num: int64, base: nat, size: int, precision: int, f: Flags): string
    requires 2 <= base <= 36
  {
    var digits := Digits(Magnitude(num, f), base, f.large);
    var pad := Padding(num, base, size, precision, f);
    WithField("", pad, f, SignText(num, f), Prefix(base, f), precision - |digits|, digits)
  }

  function Max(x: int, y: int): int {
    if x > y then x else y
  }

  /** The field is as wide as asked for, and wider only if its contents need it. */
  lemma FieldLength(num: int64, base: nat, size: int, precision: int, f: Flags)
    requires 2 <= base <= 36
    ensures |FieldText(num, base, size, precision, f)| ==
      Max(size, |SignText(num, f)| + |Prefix(base, f)| + Max(precision, |Digits(Magnitude(num, f), base, f.large)|))
  {
  }

  // Digit k from the right of the text s.
  predicate Reversed(tmp: seq<char>, i: nat, s: string)
    requires i <= |tmp|
  {
    i <= |s| && forall k :: 0 <= k < i ==> tmp[k] == s[|s| - 1 - k]
  }

  // The last digit, and the digits before it.
  lemma LastDigit(n: nat, base: nat, large: bool)
    requires 2 <= base <= 36 && n > 0
    ensures n / base < n && n % base < base
    ensures Digits(n, base, large) ==
      (if n / base == 0 then "" else Digits(n / base, base, large)) + [DigitChar(n % base, large)]
  {
    QuotientAtMost(n, base);
    if n >= base {
      Smaller(n, base);
    } else {
      QuotientUnique(n, base, 0, n);
    }
  }

  // tmp holds the last i digits of s, and those of n are left.
  ghost predicate Collected(tmp: seq<char>, i: nat, s: string, n: nat, base: nat, large: bool)
    requires 2 <= base <= 36 && i <= |tmp|
  {
    Reversed(tmp, i, s) && s[..|s| - i] == (if n == 0 then "" else Digits(n, base, large))
  }

  lemma CollectOne(tmp: seq<char>, i: nat, s: string, n: nat, base: nat, large: bool)
    requires 2 <= base <= 36 && i < |tmp| && n > 0 && Collected(tmp, i, s, n, base, large)
    ensures n % base < base
    ensures Collected(tmp[i := DigitChar(n % base, large)], i + 1, s, n / base, base, large)
  {
    LastDigit(n, base, large);
    var rest := s[..|s| - i];
    assert rest == Digits(n, base, large);
    assert s[|s| - 1 - i] == rest[|rest| - 1];
    assert s[..|s| - i - 1] == rest[..|rest| - 1];
  }

  /** Filling tmp with the digits of num, last one first. */
  method CollectDigits(tmp: array<char>, num: uint64, base: int, large: bool) returns (i: nat)
    requires 2 <= base <= 36 && tmp.Length == 66
    modifies tmp
    ensures var s := Digits(num, base, large); i == |s| <= 64 && Reversed(tmp[..], i, s)
  {
    ghost var s := Digits(num, base, large);
    DigitsFit(num, base, large);
    i := 0;
    if num == 0 {
      tmp[i] := '0';
      i := i + 1;
    } else {
      var n := num;
      assert s[..|s|] == s;
      while n != 0
        invariant i <= |s| <= 64 && Collected(tmp[..], i, s, n, base, large)
        decreases n
      {
        CollectOne(tmp[..], i, s, n, base, large);
        LastDigit(n, base, large);
        var q, d := DoDiv(n, base);
        hide Collected, Digits, DigitChar;
        ghost var old' := tmp[..];
        tmp[i] := DigitChar(d, large);
        assert tmp[..] == old'[i := DigitChar(d, large)];
        i := i + 1;
        n := q;
        assert i <= |s| by { CollectedBound(tmp[..], i, s, n, base, large); }
      }
    }
  }

  lemma CollectedBound(tmp: seq<char>, i: nat, s: string, n: nat, base: nat, large: bool)
    requires 2 <= base <= 36 && i <= |tmp| && Collected(tmp, i, s, n, base, large)
    ensures i <= |s|
  {
  }

  /** The sign character that number prints, 0 for none, and the bits it prints. */
  method SplitSign(num: int64, f: Flags, size: int) returns (sign: char, bits: uint64, left: int)
    ensures bits == Magnitude(num, f)
    ensures SignText(num, f) == if sign == NUL then "" else [sign]
    ensures left == size - |SignText(num, f)|
  {
    sign, left := NUL, size;
    bits := if num < 0 then num + TWO_64 else num;
    if f.sign {
      if num < 0 {
        sign := '-';
        bits := (TWO_64 - bits) % TWO_64;
        left := left - 1;
      } else if f.plus {
        sign := '+';
        left := left - 1;
      } else if f.space {
        sign := ' ';
        left := left - 1;
      }
    }
  }

  method PutPrefix(buf: array<char>, str: nat, end: int, base: int, f: Flags, ghost b0: string, ghost done: string)
    returns (next: nat)
    requires 2 <= base <= 36
    requires end < buf.Length && str == |done| && Emitted(b0, buf[..], end, done)
    modifies buf
    ensures next == |done| + |Prefix(base, f)| && Emitted(b0, buf[..], end, done + Prefix(base, f))
  {
    assert done + "" == done;
    next := str;
    if f.special {
      if base == 8 {
        next := Put(buf, next, end, '0', b0, done);
      } else if base == 16 {
        next := Put(buf, next, end, '0', b0, done);
        next := Put(buf, next, end, DigitChar(33, f.large), b0, done + ['0']);
        assert done + ['0'] + [DigitChar(33, f.large)] == done + Prefix(base, f);
      }
    }
  }

  /** while (i-- > 0) put tmp[i] */
  method PutDigits(buf: array<char>, str: nat, end: int, tmp: array<char>, i: nat, ghost s: string,
                   ghost b0: string, ghost done: string)
    returns (next: nat)
    requires buf != tmp && i == |s| <= tmp.Length && Reversed(tmp[..], i, s)
    requires end < buf.Length && str == |done| && Emitted(b0, buf[..], end, done)
    modifies buf
    ensures next == |done| + |s| && Emitted(b0, buf[..], end, done + s)
  {
    next := str;
    assert done + s[..0] == done;
    var k := i;
    while k > 0
      invariant 0 <= k <= i && next == str + (i - k) && Emitted(b0, buf[..], end, done + s[..i - k])
      invariant tmp[..] == old(tmp[..])
    {
      k := k - 1;
      assert tmp[k] == s[i - 1 - k];
      next := Put(buf, next, end, tmp[k], b0, done + s[..i - 1 - k]);
      assert done + s[..i - k] == done + s[..i - 1 - k] + [s[i - 1 - k]];
    }
    assert s[..i] == s;
  }

  /** The second half of number: the seven parts of the field, for a field whose sign,
      digits and number of padding characters are known. */
  method EmitField(buf: array<char>, str: nat, end: int, sign: char, base: int, f: Flags, size: int, precision: int,
                   tmp: array<char>, i: nat, ghost s: string, ghost b0: string, ghost done: string)
    returns (next: nat)
    requires 2 <= base <= 36 && buf != tmp && i == |s| <= tmp.Length && Reversed(tmp[..], i, s)
    requires f.left ==> !f.zeropad
    requires end < buf.Length && str == |done| && Emitted(b0, buf[..], end, done)
    modifies buf
    ensures var text := WithField(done, size, f, if sign == NUL then "" else [sign], Prefix(base, f), precision - i, s);
      next == |text| && Emitted(b0, buf[..], end, text)
  {
    var c := if f.zeropad then '0' else ' ';
    var left, rest := size, 0;
    next := str;
    ghost var t := done + Repeat(' ', if f.left || f.zeropad then 0 else size);
    assert done + "" == done;
    hide Emitted, Reversed, Prefix;
    if !(f.zeropad || f.left) {
      next, left := Fill(buf, next, end, ' ', left, b0, done);
    }
    ghost var u := t + (if sign == NUL then "" else [sign]);
    assert t + "" == t;
    if sign != NUL {
      next := Put(buf, next, end, sign, b0, t);
    }
    next := PutPrefix(buf, next, end, base, f, b0, u);
    u := u + Prefix(base, f);
    t := u + Repeat('0', if f.left || !f.zeropad then 0 else size);
    assert u + "" == u;
    if !f.left {
      next, left := Fill(buf, next, end, c, left, b0, u);
    }
    next, rest := Fill(buf, next, end, '0', precision - i, b0, t);
    t := t + Repeat('0', precision - i);
    next := PutDigits(buf, next, end, tmp, i, s, b0, t);
    next, left := Fill(buf, next, end, ' ', left, b0, t + s);
  }

  /** number: the field at str, and the position behind it. No field for a base that
      has no digits. */
  method Number(buf: array<char>, str: nat, end: int, num: int64, base: int, width: int, digits: int, flags: Flags,
                ghost b0: string, ghost done: string)
    returns (r: Option<nat>)
    requires end < buf.Length && str == |done| && Emitted(b0, buf[..], end, done)
    modifies buf
    ensures !(2 <= base <= 36) ==> r == None && buf[..] == old(buf[..])
    ensures 2 <= base <= 36 ==>
      var text := done + FieldText(num, base, width, digits, flags);
      r == Some(|text|) && Emitted(b0, buf[..], end, text)
  {
    hide WithField, Emitted, Reversed, Repeat, Digits;
    var f := if flags.left then flags.(zeropad := false) else flags;
    if base < 2 || base > 36 {
      return None;
    }
    var tmp := new char[66];
    var sign, bits, size := SplitSign(num, f, width);
    var precision := digits;
    if f.special {
      if base == 16 {
        size := size - 2;
      } else if base == 8 {
        size := size - 1;
      }
    }
    var i := CollectDigits(tmp, bits, base, f.large);
    if i > precision {
      precision := i;
    }
    size := size - precision;
    ghost var s := Digits(bits, base, f.large);
    assert size == Padding(num, base, width, digits, flags);
    FieldBehind(done, size, flags, SignText(num, flags), Prefix(base, flags), digits - i, s);
    SameField(done, size, flags, SignText(num, flags), Prefix(base, flags), digits, i, s);
    hide *;
    var next := EmitField(buf, str, end, sign, base, f, size, precision, tmp, i, s, b0, done);
    r := Some(next);
  }
}
