/** How the two directions fit together: the unescaper reads back what the
    escaper writes. For the verbatim kinds this holds for every text; for
    the regular kinds it holds for text without a backslash, because the
    escaper copies a backslash unchanged and the unescaper then reads it as
    the start of an escape. */
module RoundTrip {
  import opened Text
  import E = EscapeCsharp
  import U = UnescapeCsharp

  /** The digit the escaper writes for a nibble is one the unescaper accepts,
      and it reads back as that nibble. */
  lemma HexDigitDecodes(d: nat)
    ensures U.IsHexDigit(E.HexDigit(d)) && U.HexToInt(E.HexDigit(d)) == d % 16
  {
  }

  /** A 16-bit value is the sum of its four nibbles, most significant first. */
  lemma NibbleSum(c: CodeUnit)
    ensures (c / 0x1000) % 16 * 0x1000 + (c / 0x100) % 16 * 0x100 + (c / 0x10) % 16 * 0x10 + c % 16 == c
  {
    var n0, q0 := c % 16, c / 16;
    var n1, q1 := q0 % 16, q0 / 16;
    var n2, n3 := q1 % 16, q1 / 16;
    assert c == q0 * 16 + n0;
    assert q0 == q1 * 16 + n1;
    assert q1 == n3 * 16 + n2;
    assert c / 0x10 == q0;
    assert c / 0x100 == q1;
    assert c / 0x1000 == n3;
  }

  /** `\uXXXX` as the escaper writes it is a unicode escape the unescaper
      accepts, and its four digits read back as the unit escaped. */
  lemma UnicodeEscapeDecodes(c: CodeUnit)
    ensures U.HasUnicodeEscape(E.UnicodeEscape(c)[1..])
    ensures U.HexQuad(E.UnicodeEscape(c)[2..]) == c
  {
    var e := E.UnicodeEscape(c);
    HexDigitDecodes(c / 0x1000);
    HexDigitDecodes(c / 0x100);
    HexDigitDecodes(c / 0x10);
    HexDigitDecodes(c);
    NibbleSum(c);
    assert e[2..][0] == E.HexDigit(c / 0x1000);
    assert e[2..][1] == E.HexDigit(c / 0x100);
    assert e[2..][2] == E.HexDigit(c / 0x10);
    assert e[2..][3] == E.HexDigit(c);
  }

  /** The unit sequence the escaper writes for `c`, followed by anything,
      unescapes to `c` followed by the unescaped rest. */
  lemma UnescapeEscapeUnit(c: CodeUnit, rest: seq<CodeUnit>, t: LiteralType)
    requires t.UsesRegularRule() ==> c != Backslash
    ensures U.Unescaped(E.EscapeUnit(c, t) + rest, t) == [c] + U.Unescaped(rest, t)
  {
    var e := E.EscapeUnit(c, t);
    var s := e + rest;
    if |e| == 1 {
      assert s[1..] == rest;
    } else if |e| == 2 {
      assert s[1..] == [e[1]] + rest && s[2..] == rest;
      if !t.UsesRegularRule() || IsBrace(c) {
        assert e == [c, c];
      } else {
        assert e[0] == Backslash;
        assert U.SimpleEscapeValue(e[1]) == Some(c);
      }
    } else {
      assert !IsBrace(c) && t.UsesRegularRule() && c >= 128;
      assert e == E.UnicodeEscape(c);
      UnicodeEscapeDecodes(c);
      assert s[1..] == e[1..] + rest && s[1..][1..5] == e[2..] && s[6..] == rest;
      assert U.SimpleEscapeValue(LetterU).None?;
    }
  }

  /** Unescaping undoes escaping: always for the verbatim kinds, and for the
      regular kinds whenever the text holds no backslash. */
  lemma {:induction false} UnescapeEscaped(s: seq<CodeUnit>, t: LiteralType)
    requires t.UsesRegularRule() ==> forall k :: 0 <= k < |s| ==> s[k] != Backslash
    ensures U.Unescaped(E.Escaped(s, t), t) == s
  {
    if s != [] {
      UnescapeEscaped(s[1..], t);
      UnescapeEscapeUnit(s[0], E.Escaped(s[1..], t), t);
      assert s == [s[0]] + s[1..];
    }
  }

  /** Why the regular kinds need the no-backslash condition: a backslash
      followed by `n` is escaped unchanged and then read back as a newline. */
  lemma BackslashBreaksRegularRoundTrip(t: LiteralType)
    requires t.UsesRegularRule()
    ensures E.Escaped([Backslash, 'n' as int], t) == [Backslash, 'n' as int]
    ensures U.Unescaped(E.Escaped([Backslash, 'n' as int], t), t) == [0x0A]
  {
    var s := [Backslash, 'n' as int];
    assert s == [Backslash] + ['n' as int];
    E.EscapedAppend([Backslash], ['n' as int], t);
    E.EscapedSingle(Backslash, t);
    E.EscapedSingle('n' as int, t);
    assert E.EscapeUnit(Backslash, t) == [Backslash];
    assert E.EscapeUnit('n' as int, t) == ['n' as int];
    U.UnescapedKnownLetter(t, 'n' as int, []);
    assert s + [] == s;
  }

  /** The no-backslash condition is sufficient, not necessary: a doubled
      backslash, and a lone one, still round-trip under the regular kinds. */
  lemma BackslashesCanRoundTrip(t: LiteralType)
    requires t.UsesRegularRule()
    ensures U.Unescaped(E.Escaped([Backslash, Backslash], t), t) == [Backslash, Backslash]
    ensures U.Unescaped(E.Escaped([Backslash], t), t) == [Backslash]
  {
    E.EscapedCons(Backslash, [Backslash], t);
    E.EscapedSingle(Backslash, t);
    assert E.EscapeUnit(Backslash, t) == [Backslash];
    U.UnescapedTrailingBackslash(t);
    U.UnescapedBackslashCopied(t, Backslash, []);
    assert [Backslash, Backslash] + [] == [Backslash, Backslash];
    assert [Backslash] + [] == [Backslash];
  }

  /** A unit no rule of the kind touches in either direction. */
  predicate Untouched(c: CodeUnit, t: LiteralType) {
    U.StartsNoEscape(c, t) && (t.UsesRegularRule() ==> c < 128 && !HasControlEscape(c))
  }

  /** `Untouched` is exact: a unit is untouched precisely when the escaper
      copies it and no unescaping rule claims it, whatever follows it. */
  lemma UntouchedExactly(c: CodeUnit, t: LiteralType)
    ensures Untouched(c, t) <==> E.EscapeUnit(c, t) == [c] && forall rest :: U.Rules(c, rest, t).None?
  {
    U.StartsNoEscapeExactly(c, t);
    E.RegularTable();
    if t.UsesRegularRule() && U.StartsNoEscape(c, t) && !IsBrace(c) {
      assert E.EscapeUnit(c, t) == E.EscapeUnit(c, Regular);
      if HasControlEscape(c) {
        var k :| 0 <= k < |ControlEscapes| && ControlEscapes[k].0 == c;
        assert E.EscapeUnit(c, t) == [Backslash, ControlEscapes[k].1];
      } else if c >= 128 {
        assert |E.EscapeUnit(c, t)| == 6;
      }
    }
  }

  /** Copy-through: text made only of untouched units is left unchanged by
      both directions. */
  lemma {:induction false} UntouchedTextUnchanged(s: seq<CodeUnit>, t: LiteralType)
    requires forall k :: 0 <= k < |s| ==> Untouched(s[k], t)
    ensures E.Escaped(s, t) == s
    ensures U.Unescaped(s, t) == s
  {
    U.UnescapedPlain(s, t);
    if s != [] {
      UntouchedTextUnchanged(s[1..], t);
      E.RegularTable();
      assert E.EscapeUnit(s[0], t) == [s[0]];
    }
  }
}
