/** Text written through a cursor that may run past the last cell it may write:
    the pattern `if (str <= end) *str = c; ++str` of lib/vsprintf.c. Positions count
    from the start of the buffer; end is the position of its last cell. */
module Output {

  function Repeat(c: char, n: int): (s: string)
    ensures |s| == if n > 0 then n else 0
    ensures forall i :: 0 <= i < |s| ==> s[i] == c
    decreases n
  {
    if n <= 0 then "" else Repeat(c, n - 1) + [c]
  }

  /** after is before with text written from its start on, as far as end allows. */
  ghost predicate Emitted(before: string, after: string, end: int, text: string) {
    && |after| == |before|
    && forall k :: 0 <= k < |before| ==> after[k] == if k < |text| && k <= end then text[k] else before[k]
  }

  lemma NothingEmitted(before: string, end: int)
    ensures Emitted(before, before, end, "")
  {
  }

  /** One character, when done has been written to a buffer that held b0. */
  method Put(buf: array<char>, str: nat, end: int, c: char, ghost b0: string, ghost done: string) returns (next: nat)
    requires end < buf.Length && str == |done| && Emitted(b0, buf[..], end, done)
    modifies buf
    ensures next == |done| + 1 && Emitted(b0, buf[..], end, done + [c])
  {
    if str <= end {
      buf[str] := c;
    }
    next := str + 1;
  }

  /** while (count-- > 0) put c */
  method Fill(buf: array<char>, str: nat, end: int, c: char, count: int, ghost b0: string, ghost done: string)
    returns (next: nat, left: int)
    requires end < buf.Length && str == |done| && Emitted(b0, buf[..], end, done)
    modifies buf
    ensures var text := done + Repeat(c, count);
      next == |text| && Emitted(b0, buf[..], end, text)
    ensures left == (if count > 0 then 0 else count) - 1
  {
    ghost var k := 0;
    next, left := str, count - 1;
    assert done + Repeat(c, 0) == done;
    while left + 1 > 0
      invariant k >= 0 && next == str + k && left + 1 == count - k
      invariant k <= 0 || k <= count
      invariant Emitted(b0, buf[..], end, done + Repeat(c, k))
      decreases left + 1
    {
      next := Put(buf, next, end, c, b0, done + Repeat(c, k));
      assert done + Repeat(c, k + 1) == done + Repeat(c, k) + [c];
      left := left - 1;
      k := k + 1;
    }
  }

  // Fill copies: put the first n characters of s.
  method PutAll(buf: array<char>, str: nat, end: int, s: string, ghost b0: string, ghost done: string)
    returns (next: nat)
    requires end < buf.Length && str == |done| && Emitted(b0, buf[..], end, done)
    modifies buf
    ensures next == |done| + |s| && Emitted(b0, buf[..], end, done + s)
  {
    next := str;
    assert done + s[..0] == done;
    for i := 0 to |s|
      invariant next == str + i && Emitted(b0, buf[..], end, done + s[..i])
    {
      next := Put(buf, next, end, s[i], b0, done + s[..i]);
      assert done + s[..i + 1] == done + s[..i] + [s[i]];
    }
    assert s[..|s|] == s;
  }
}
