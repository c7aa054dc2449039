/** Laws of the texts that vsnprintf produces (lib/vsprintf.c, lines 256-447): what a
    format contributes does not depend on what stands behind it. */
module FormatLaws {
  import opened Ctype
  import opened Output
  import opened Number
  import opened Parse
  import opened Printf

  /** No directive of fmt from p on is cut off by the end of the format. */
  ghost predicate Complete(fmt: string, p: nat, args: seq<Arg>)
    requires CString(fmt) && p < |fmt|
    decreases |fmt| - p
  {
    fmt[p] == NUL ||
    (var r := RoundAt(fmt, p, args);
     (fmt[p] == '%' ==> fmt[DirectiveAt(fmt, p + 1, args).p] != NUL) && Complete(fmt, r.next, r.args))
  }

  /** The arguments that fmt leaves. */
  ghost function Unused(fmt: string, p: nat, args: seq<Arg>): seq<Arg>
    requires CString(fmt) && p < |fmt|
    decreases |fmt| - p
  {
    if fmt[p] == NUL then args else
      var r := RoundAt(fmt, p, args);
      Unused(fmt, r.next, r.args)
  }

  // ---------- parsing looks no further than the directive ----------

  // What s holds before its end at n stands in t from off on.
  ghost predicate Embedded(s: string, t: string, n: nat, off: nat) {
    && CString(s) && CString(t) && |s| == n + 1 && off + n < |t|
    && forall k: nat | k < n :: s[k] == t[off + k] && s[k] != NUL
  }

  // A character that ends every part of a directive.
  predicate Stops(c: char) {
    !IsFlag(c) && !IsDigit(c) && c != '*' && c != '.' && !IsQualifier(c)
  }

  lemma Same(s: string, t: string, n: nat, off: nat, k: nat)
    requires Embedded(s, t, n, off) && k < n
    ensures s[k] == t[off + k] && s[k] != NUL && s[n] == NUL
  {
  }

  function Moved(d: Directive, off: nat): Directive {
    d.(p := d.p + off)
  }

  lemma {:induction false} SameFlags(s: string, t: string, n: nat, off: nat, p: nat, f: Flags)
    requires Embedded(s, t, n, off) && p <= n
    requires FlagsAt(s, p, f).1 < n || Stops(t[off + n])
    ensures var (g, q) := FlagsAt(s, p, f); q <= n && FlagsAt(t, off + p, f) == (g, off + q)
    decreases n - p
  {
    if p < n {
      Same(s, t, n, off, p);
      if IsFlag(s[p]) {
        SameFlags(s, t, n, off, p + 1, WithFlag(f, s[p]));
      }
    }
  }

  lemma {:induction false} SameAtoi(s: string, t: string, n: nat, off: nat, p: nat, i: nat)
    requires Embedded(s, t, n, off) && p <= n
    requires AtoiAt(s, p, i).1 < n || Stops(t[off + n])
    ensures var (v, q) := AtoiAt(s, p, i); q <= n && AtoiAt(t, off + p, i) == (v, off + q)
    decreases n - p
  {
    if p < n {
      Same(s, t, n, off, p);
      if IsDigit(s[p]) {
        SameAtoi(s, t, n, off, p + 1, i * 10 + (s[p] as int - 48));
      }
    }
  }

  lemma SameWidth(s: string, t: string, n: nat, off: nat, p: nat, f: Flags, args: seq<Arg>)
    requires Embedded(s, t, n, off) && p <= n
    requires WithWidth(s, p, f, args).p < n || Stops(t[off + n])
    ensures var d := WithWidth(s, p, f, args); d.p <= n && WithWidth(t, off + p, f, args) == Moved(d, off)
  {
    if p < n {
      Same(s, t, n, off, p);
      if IsDigit(s[p]) {
        SameAtoi(s, t, n, off, p, 0);
      }
    }
  }

  lemma SamePrecision(s: string, t: string, n: nat, off: nat, d: Directive)
    requires Embedded(s, t, n, off) && d.p <= n
    requires WithPrecision(s, d).p < n || Stops(t[off + n])
    ensures var r := WithPrecision(s, d); r.p <= n && WithPrecision(t, Moved(d, off)) == Moved(r, off)
  {
    if d.p < n {
      Same(s, t, n, off, d.p);
      if d.p + 1 < n {
        Same(s, t, n, off, d.p + 1);
        if s[d.p] == '.' && IsDigit(s[d.p + 1]) {
          assert WithPrecision(s, d).p == AtoiAt(s, d.p + 1, 0).1;
          SameAtoi(s, t, n, off, d.p + 1, 0);
        }
      }
    }
  }

  lemma SameQualifier(s: string, t: string, n: nat, off: nat, d: Directive)
    requires Embedded(s, t, n, off) && d.p <= n
    requires WithQualifier(s, d).p < n || Stops(t[off + n])
    ensures var r := WithQualifier(s, d); r.p <= n && WithQualifier(t, Moved(d, off)) == Moved(r, off)
  {
    if d.p < n {
      Same(s, t, n, off, d.p);
      if d.p + 1 < n {
        Same(s, t, n, off, d.p + 1);
      }
    }
  }

  /** A directive that ends inside s is the same directive wherever s is embedded; one that
      s cuts off ends there if the character behind s can be no part of it. */
  lemma SameDirective(s: string, t: string, n: nat, off: nat, p: nat, args: seq<Arg>)
    requires Embedded(s, t, n, off) && p <= n
    requires DirectiveAt(s, p, args).p < n || Stops(t[off + n])
    ensures var d := DirectiveAt(s, p, args); d.p <= n && DirectiveAt(t, off + p, args) == Moved(d, off)
  {
    var (f, q) := FlagsAt(s, p, NO_FLAGS);
    var d1 := WithWidth(s, q, f, args);
    var d2 := WithPrecision(s, d1);
    hide FlagsAt, WithWidth, WithPrecision, WithQualifier, Stops, Embedded;
    SameFlags(s, t, n, off, p, NO_FLAGS);
    SameWidth(s, t, n, off, q, f, args);
    SamePrecision(s, t, n, off, d1);
    SameQualifier(s, t, n, off, d2);
  }

  // ---------- concatenation ----------

  lemma SameConversion(c: char, d: Directive, off: nat)
    ensures ConversionAt(c, Moved(d, off)) == ConversionAt(c, d).(next := off + ConversionAt(c, d).next)
  {
    hide FieldText, Converted, StrNLen, Repeat;
    assert CharText(NumAt(d.args), Moved(d, off)) == CharText(NumAt(d.args), d);
    assert StrText(StrAt(d.args), Moved(d, off)) == StrText(StrAt(d.args), d);
    assert PointerText(NumAt(d.args), Moved(d, off)) == PointerText(NumAt(d.args), d);
    assert IntegerText(c, NumAt(d.args), Moved(d, off)) == IntegerText(c, NumAt(d.args), d);
  }

  // A directive inside s at p, and the same directive in t at q.
  lemma SameDirectiveRound(s: string, t: string, n: nat, off: nat, p: nat, q: nat, args: seq<Arg>)
    requires Embedded(s, t, n, off) && p < n && q == off + p
    requires s[p] == '%' && DirectiveAt(s, p + 1, args).p < n
    ensures t[q] == '%'
    ensures var r, u := RoundAt(s, p, args), RoundAt(t, q, args);
      r.next <= n && u.next == off + r.next && u.text == r.text && u.args == r.args
  {
    var p', q' := p + 1, q + 1;
    assert CString(s) && CString(t) && off + p' == q';
    hide DirectiveAt, ConversionAt, Embedded, RoundAt, Moved, CString;
    var d := DirectiveAt(s, p', args);
    var c, m := s[d.p], Moved(d, off);
    Same(s, t, n, off, p);
    Same(s, t, n, off, d.p);
    SameDirective(s, t, n, off, p', args);
    assert DirectiveAt(t, q', args) == m;
    MovedTo(d, off);
    ConversionEnds(c, d);
    SameConversion(c, d, off);
    DirectiveIs(s, p, p', args, d);
    DirectiveIs(t, q, q', args, m);
    assert t[m.p] == c;
  }

  lemma MovedTo(d: Directive, off: nat)
    ensures Moved(d, off).p == off + d.p
  {
  }

  lemma ConversionEnds(c: char, d: Directive)
    ensures d.p <= ConversionAt(c, d).next <= d.p + 1
  {
    hide CharText, StrText, PointerText, IntegerText;
  }

  // A round over a directive.
  lemma DirectiveIs(s: string, p: nat, p': nat, args: seq<Arg>, d: Directive)
    requires CString(s) && p' == p + 1 < |s| && s[p] == '%' && DirectiveAt(s, p', args) == d
    ensures d.p < |s| && RoundAt(s, p, args) == ConversionAt(s[d.p], d)
  {
    hide DirectiveAt, ConversionAt;
  }

  // One round inside s at p, and the same round in t at q.
  lemma SameRound(s: string, t: string, n: nat, off: nat, p: nat, q: nat, args: seq<Arg>)
    requires Embedded(s, t, n, off) && p < n && q == off + p
    requires s[p] == '%' ==> DirectiveAt(s, p + 1, args).p < n
    ensures s[p] != NUL && t[q] != NUL
    ensures var r, u := RoundAt(s, p, args), RoundAt(t, q, args);
      r.next <= n && u.next == off + r.next && u.text == r.text && u.args == r.args
  {
    hide DirectiveAt, ConversionAt;
    Same(s, t, n, off, p);
    if s[p] == '%' {
      SameDirectiveRound(s, t, n, off, p, q, args);
    }
  }

  lemma EmptyConversion(d: Directive)
    ensures ConversionAt('%', d) == Round("%", d.p + 1, d.args)
    ensures ConversionAt(NUL, d) == Round("%", d.p, d.args)
    ensures Stops('%') && Stops(NUL)
  {
  }

  // A directive that the end of s cuts off, where t has a percent sign or ends as well.
  lemma CutRound(s: string, t: string, n: nat, off: nat, p: nat, q: nat, args: seq<Arg>)
    requires Embedded(s, t, n, off) && p < n && q == off + p && (t[off + n] == '%' || t[off + n] == NUL)
    requires s[p] == '%' && DirectiveAt(s, p + 1, args).p >= n
    ensures s[p] == t[q] != NUL
    ensures var r, u := RoundAt(s, p, args), RoundAt(t, q, args);
      && r.next == n && u.next == off + n + (if t[off + n] == '%' then 1 else 0)
      && r.text == u.text == "%" && u.args == r.args
  {
    var d := DirectiveAt(s, p + 1, args);
    var m := Moved(d, off);
    EmptyConversion(d);
    EmptyConversion(m);
    Same(s, t, n, off, p);
    assert off + (p + 1) == q + 1;
    SameDirective(s, t, n, off, p + 1, args);
    assert DirectiveAt(t, q + 1, args) == m && d.p == n && s[d.p] == NUL && m.p == off + n;
    assert t[m.p] == t[off + n] && t[q] == '%';
    RoundIs(s, p, args);
    RoundIs(t, q, args);
    hide *;
    assert RoundAt(s, p, args) == ConversionAt(NUL, d);
    assert RoundAt(t, q, args) == ConversionAt(t[m.p], m);
  }

  lemma CompleteRound(s: string, n: nat, p: nat, args: seq<Arg>)
    requires Embedded(s, s, n, 0) && p < n
    ensures var r := RoundAt(s, p, args);
      && Complete(s, p, args) == ((s[p] == '%' ==> DirectiveAt(s, p + 1, args).p < n) && Complete(s, r.next, r.args))
      && Unused(s, p, args) == Unused(s, r.next, r.args)
  {
    Same(s, s, n, 0, p);
    assert s[p] == '%' ==>
      (DirectiveAt(s, p + 1, args).p < n <==> s[DirectiveAt(s, p + 1, args).p] != NUL);
    hide DirectiveAt, RoundAt, Embedded, CString;
    var r := RoundAt(s, p, args);
    assert Unused(s, p, args) == Unused(s, r.next, r.args);
    assert Complete(s, p, args) ==
      ((s[p] == '%' ==> s[DirectiveAt(s, p + 1, args).p] != NUL) && Complete(s, r.next, r.args));
  }

  // One round of a complete format, in s and in t.
  lemma RoundInBoth(s: string, t: string, n: nat, off: nat, p: nat, q: nat, args: seq<Arg>)
    requires Embedded(s, t, n, off) && p < n && q == off + p && Complete(s, p, args)
    ensures t[q] != NUL
    ensures var r, u := RoundAt(s, p, args), RoundAt(t, q, args);
      && p < r.next <= n && u.next == off + r.next
      && Complete(s, r.next, r.args) && Unused(s, p, args) == Unused(s, r.next, r.args)
      && Formatted(s, p, args) == r.text + Formatted(s, r.next, r.args)
      && Formatted(t, q, args) == r.text + Formatted(t, u.next, r.args)
  {
    assert Embedded(s, s, n, 0);
    CompleteRound(s, n, p, args);
    SameRound(s, t, n, off, p, q, args);
    NextRound(s, p, args);
    NextRound(t, q, args);
    hide *;
  }

  lemma AtEnd(s: string, n: nat, args: seq<Arg>)
    requires CString(s) && |s| == n + 1
    ensures Formatted(s, n, args) == "" && Complete(s, n, args) && Unused(s, n, args) == args
  {
  }

  lemma ChainTexts(all: string, first: string, a: string, x: string, y: string, z: string)
    requires all == a + y && first == a + x && y == x + z
    ensures all == first + z
  {
  }

  /** Where a complete format is embedded, its text comes first and then the text of what
      follows it at e, for the arguments that it has left. */
  lemma {:induction false} FollowedBy(s: string, t: string, n: nat, off: nat, e: nat, p: nat, q: nat, args: seq<Arg>)
    requires Embedded(s, t, n, off) && p <= n && q == off + p && e == off + n && Complete(s, p, args)
    ensures Formatted(t, q, args) == Formatted(s, p, args) + Formatted(t, e, Unused(s, p, args))
    decreases n - p
  {
    assert CString(s) && CString(t) && Embedded(s, s, n, 0);
    hide Embedded, CString, RoundAt, DirectiveAt;
    if p == n {
      AtEnd(s, p, args);
      assert q == e;
      var z := Formatted(t, e, args);
      assert "" + z == z;
    } else {
      RoundInBoth(s, t, n, off, p, q, args);
      var r, u := RoundAt(s, p, args), RoundAt(t, q, args);
      FollowedBy(s, t, n, off, e, r.next, u.next, r.args);
      ChainTexts(Formatted(t, q, args), Formatted(s, p, args), r.text,
            Formatted(s, r.next, r.args), Formatted(t, u.next, r.args), Formatted(t, e, Unused(s, r.next, r.args)));
    }
  }

  /** A format has the same text at the end of another one. */
  lemma {:induction false} AtTheEnd(s: string, t: string, n: nat, off: nat, p: nat, q: nat, args: seq<Arg>)
    requires Embedded(s, t, n, off) && p <= n && q == off + p && |t| == off + n + 1
    ensures Formatted(t, q, args) == Formatted(s, p, args)
    decreases n - p
  {
    assert CString(s) && CString(t) && t[off + n] == NUL;
    hide Embedded, CString, RoundAt, DirectiveAt;
    if p == n {
      AtEnd(s, n, args);
      AtEnd(t, q, args);
    } else {
      var r, u := RoundAt(s, p, args), RoundAt(t, q, args);
      if s[p] == '%' && DirectiveAt(s, p + 1, args).p >= n {
        CutRound(s, t, n, off, p, q, args);
      } else {
        SameRound(s, t, n, off, p, q, args);
      }
      NextRound(s, p, args);
      NextRound(t, q, args);
      AtTheEnd(s, t, n, off, r.next, u.next, r.args);
    }
  }

  /** A percent sign behind a format that ends inside a directive is taken into it, and adds
      nothing to the text. */
  lemma {:induction false} PercentBehind(s: string, t: string, n: nat, off: nat, p: nat, q: nat, args: seq<Arg>)
    requires Embedded(s, t, n, off) && p <= n && q == off + p && !Complete(s, p, args)
    requires |t| == off + n + 2 && t[off + n] == '%'
    ensures Formatted(t, q, args) == Formatted(s, p, args)
    decreases n - p
  {
    assert CString(s) && CString(t) && Embedded(s, s, n, 0);
    hide Embedded, CString, RoundAt, DirectiveAt;
    if p == n {
      AtEnd(s, n, args);
    } else {
      var r, u := RoundAt(s, p, args), RoundAt(t, q, args);
      CompleteRound(s, n, p, args);
      if s[p] == '%' && DirectiveAt(s, p + 1, args).p >= n {
        CutRound(s, t, n, off, p, q, args);
        AtEnd(s, n, r.args);
        AtEnd(t, u.next, r.args);
      } else {
        SameRound(s, t, n, off, p, q, args);
        PercentBehind(s, t, n, off, r.next, u.next, r.args);
      }
      NextRound(s, p, args);
      NextRound(t, q, args);
    }
  }

  /** The text of format f, a string without NUL. */
  ghost function Text(f: string, args: seq<Arg>): string
    requires NUL !in f
  {
    Formatted(f + [NUL], 0, args)
  }

  /** Behind f, every format prints what it prints alone with the arguments f leaves. */
  ghost predicate Concatenates(f: string, args: seq<Arg>)
    requires NUL !in f
  {
    forall g: string | NUL !in g ::
      Text(f + g, args) == Text(f, args) + Text(g, Unused(f + [NUL], 0, args))
  }

  lemma ConcatenationOf(f: string, g: string, args: seq<Arg>)
    requires NUL !in f && NUL !in g && Complete(f + [NUL], 0, args)
    ensures Text(f + g, args) == Text(f, args) + Text(g, Unused(f + [NUL], 0, args))
  {
    var s, u, t := f + [NUL], g + [NUL], f + g + [NUL];
    assert Embedded(s, t, |f|, 0) && Embedded(u, t, |g|, |f|);
    hide Embedded, CString, RoundAt, DirectiveAt;
    FollowedBy(s, t, |f|, 0, |f|, 0, 0, args);
    AtTheEnd(u, t, |g|, |f|, 0, |f|, Unused(s, 0, args));
  }

  lemma PercentAlone(args: seq<Arg>)
    ensures Text("%", args) == "%"
  {
    var s := "%" + [NUL];
    assert |s| == 2 && s[0] == '%' && s[1] == NUL;
    assert FlagsAt(s, 1, NO_FLAGS) == (NO_FLAGS, 1);
    var d := DirectiveAt(s, 1, args);
    assert d == Directive(NO_FLAGS, -1, -1, NUL, 1, args);
    hide DirectiveAt, Formatted;
    NextRound(s, 0, args);
    AtEnd(s, 1, args);
  }

  /** The text of a concatenation is the concatenation of the texts, whatever stands
      behind, exactly for the formats that end outside a directive. */
  lemma ConcatenationLaw(f: string, args: seq<Arg>)
    requires NUL !in f
    ensures Concatenates(f, args) <==> Complete(f + [NUL], 0, args)
  {
    if Complete(f + [NUL], 0, args) {
      forall g: string | NUL !in g
        ensures Text(f + g, args) == Text(f, args) + Text(g, Unused(f + [NUL], 0, args))
      {
        ConcatenationOf(f, g, args);
      }
    } else {
      var s, t := f + [NUL], f + "%" + [NUL];
      assert Embedded(s, t, |f|, 0);
      PercentBehind(s, t, |f|, 0, 0, 0, args);
      PercentAlone(Unused(s, 0, args));
      assert Text(f + "%", args) != Text(f, args) + Text("%", Unused(s, 0, args));
    }
  }
}
