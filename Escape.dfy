/** The escaper: raw text to the body of a C# string literal of a given kind.
    Each code unit is handled on its own, with no look-ahead. The rules are
    first stated as pure functions of one code unit; `Escape` and its helpers
    are the imperative loop that appends into a shared builder, proved to
    produce exactly `Escaped`. */
module EscapeCsharp {
  import opened Text

  /** The uppercase hexadecimal digit of the low nibble of `d`. The callers
      pass `c >> k` of a `char`, which is never negative, so the mask `& 0x0F`
      is the remainder modulo 16. */
  function HexDigit(d: nat): (r: CodeUnit)
    ensures '0' as int <= r <= '9' as int || 'A' as int <= r <= 'F' as int
    ensures r <= '9' as int ==> r - '0' as int == d % 16
    ensures r >= 'A' as int ==> r - 'A' as int + 10 == d % 16
  {
    var n := d % 16;
    if n <= 9 then '0' as int + n else 'A' as int + n - 10
  }

  /** The six units `\uXXXX` for a code unit, most significant nibble first. */
  function UnicodeEscape(c: CodeUnit): seq<CodeUnit> {
    [Backslash, LetterU, HexDigit(c / 0x1000), HexDigit(c / 0x100), HexDigit(c / 0x10), HexDigit(c)]
  }

  /** What the regular rule writes for `c`, or None when it leaves `c` alone. */
  function RegularRule(c: CodeUnit): Option<seq<CodeUnit>> {
    if c == 0x00 then Some([Backslash, '0' as int])
    else if c == 0x07 then Some([Backslash, 'a' as int])
    else if c == 0x08 then Some([Backslash, 'b' as int])
    else if c == 0x0C then Some([Backslash, 'f' as int])
    else if c == 0x0A then Some([Backslash, 'n' as int])
    else if c == 0x0D then Some([Backslash, 'r' as int])
    else if c == 0x09 then Some([Backslash, 't' as int])
    else if c == 0x0B then Some([Backslash, 'v' as int])
    else if c == Quote then Some([Backslash, Quote])
    else if c < 128 then None
    else Some(UnicodeEscape(c))
  }

  /** What the verbatim rule writes for `c`: a quote is doubled. */
  function VerbatimRule(c: CodeUnit): Option<seq<CodeUnit>> {
    if c == Quote then Some([c, c]) else None
  }

  /** What the interpolation rule writes for `c`: a brace is doubled. */
  function InterpolatedRule(c: CodeUnit): Option<seq<CodeUnit>> {
    if IsBrace(c) then Some([c, c]) else None
  }

  /** The rule chain a literal kind applies to one unit. */
  function Rules(c: CodeUnit, t: LiteralType): Option<seq<CodeUnit>> {
    match t
    case Regular => RegularRule(c)
    case Verbatim => VerbatimRule(c)
    case Interpolated => InterpolatedRule(c).OrElse(RegularRule(c))
    case InterpolatedVerbatim => InterpolatedRule(c).OrElse(VerbatimRule(c))
  }

  /** The output for one unit: what the first claiming rule writes, or the
      unit itself when no rule claims it. */
  function EscapeUnit(c: CodeUnit, t: LiteralType): (r: seq<CodeUnit>)
    ensures |r| == 1 || |r| == 2 || |r| == 6
    ensures |r| == 1 ==> r == [c]
    ensures r[0] == c || r[0] == Backslash
    ensures t.UsesRegularRule() ==> forall k :: 0 <= k < |r| ==> r[k] < 128
  {
    match Rules(c, t)
    case Some(e) => e
    case None => [c]
  }

  /** The escaped form of a whole text: the units' outputs, in order. */
  function Escaped(s: seq<CodeUnit>, t: LiteralType): (r: seq<CodeUnit>)
    ensures |s| <= |r| <= 6 * |s|
    ensures t.UsesRegularRule() ==> forall k :: 0 <= k < |r| ==> r[k] < 128
  {
    if s == [] then [] else EscapeUnit(s[0], t) + Escaped(s[1..], t)
  }

  /** Escaping has no look-ahead: it distributes over concatenation. */
  lemma {:induction false} EscapedAppend(s1: seq<CodeUnit>, s2: seq<CodeUnit>, t: LiteralType)
    ensures Escaped(s1 + s2, t) == Escaped(s1, t) + Escaped(s2, t)
  {
    if s1 == [] {
      assert s1 + s2 == s2;
    } else {
      assert (s1 + s2)[0] == s1[0];
      assert (s1 + s2)[1..] == s1[1..] + s2;
      EscapedAppend(s1[1..], s2, t);
    }
  }

  lemma EscapedSingle(c: CodeUnit, t: LiteralType)
    ensures Escaped([c], t) == EscapeUnit(c, t)
  {
    assert [c][1..] == [];
  }

  lemma EscapedSnoc(s: seq<CodeUnit>, i: nat, t: LiteralType)
    requires i < |s|
    ensures Escaped(s[..i + 1], t) == Escaped(s[..i], t) + EscapeUnit(s[i], t)
  {
    assert s[..i + 1] == s[..i] + [s[i]];
    EscapedAppend(s[..i], [s[i]], t);
    EscapedSingle(s[i], t);
  }

  /** The regular rule table: the nine units with a one-letter escape become
      a backslash and that letter; every other unit below 128 (backslash and
      apostrophe included) is copied; every unit of 128 or more becomes
      `\u` and four uppercase hex digits. */
  lemma RegularTable()
    ensures forall k :: 0 <= k < |ControlEscapes| ==>
      EscapeUnit(ControlEscapes[k].0, Regular) == [Backslash, ControlEscapes[k].1]
    ensures forall c: CodeUnit :: c < 128 && !HasControlEscape(c) ==> EscapeUnit(c, Regular) == [c]
    ensures forall c: CodeUnit :: c >= 128 ==> EscapeUnit(c, Regular) == UnicodeEscape(c)
  {
    forall c: CodeUnit | c < 128 && !HasControlEscape(c)
      ensures EscapeUnit(c, Regular) == [c]
    {
      assert forall k :: 0 <= k < |ControlEscapes| ==> ControlEscapes[k].0 != c;
      assert ControlEscapes[0].0 != c && ControlEscapes[1].0 != c && ControlEscapes[2].0 != c;
      assert ControlEscapes[3].0 != c && ControlEscapes[4].0 != c && ControlEscapes[5].0 != c;
      assert ControlEscapes[6].0 != c && ControlEscapes[7].0 != c && ControlEscapes[8].0 != c;
    }
  }

  /** The hex digit depends on the low nibble only. */
  lemma HexDigitLowNibble(d: nat)
    ensures HexDigit(d) == HexDigit(d % 16)
  {
  }

  /** The units that the verbatim kinds double. */
  function DoubledUnits(t: LiteralType): set<CodeUnit> {
    {Quote} + (if t.IsInterpolated() then {LeftBrace, RightBrace} else {})
  }

  /** Verbatim kinds change nothing but the doubled units: with those removed
      the output is the input, and each of them occurs twice as often. */
  lemma {:induction false} VerbatimOnlyDoubles(s: seq<CodeUnit>, t: LiteralType)
    requires !t.UsesRegularRule()
    ensures Without(DoubledUnits(t), Escaped(s, t)) == Without(DoubledUnits(t), s)
    ensures forall c :: c in DoubledUnits(t) ==> Count(c, Escaped(s, t)) == 2 * Count(c, s)
  {
    if s != [] {
      var e := EscapeUnit(s[0], t);
      VerbatimOnlyDoubles(s[1..], t);
      WithoutAppend(DoubledUnits(t), e, Escaped(s[1..], t));
      assert e == [s[0]] || e == [s[0], s[0]];
      if e == [s[0], s[0]] {
        assert e[1..] == [s[0]];
        assert s[0] in DoubledUnits(t);
      }
      forall c | c in DoubledUnits(t)
        ensures Count(c, Escaped(s, t)) == 2 * Count(c, s)
      {
        CountAppend(c, e, Escaped(s[1..], t));
        if e == [s[0], s[0]] {
          assert e[1..] == [s[0]];
        }
      }
    }
  }

  /** Under the interpolated kinds a brace becomes that brace twice and never
      reaches the base rule; every other unit is escaped as the base kind
      escapes it. */
  lemma InterpolatedUnit(c: CodeUnit, t: LiteralType)
    requires t.IsInterpolated()
    ensures EscapeUnit(c, t) == if IsBrace(c) then [c, c] else EscapeUnit(c, t.Base())
  {
  }

  /** A unit the interpolation rule does not claim is escaped as the base kind
      escapes it, so brace-free text is escaped exactly as the base kind does. */
  lemma {:induction false} InterpolatedFallsThrough(s: seq<CodeUnit>, t: LiteralType)
    requires t.IsInterpolated()
    requires forall k :: 0 <= k < |s| ==> !IsBrace(s[k])
    ensures Escaped(s, t) == Escaped(s, t.Base())
  {
    if s != [] {
      InterpolatedFallsThrough(s[1..], t);
    }
  }

  /** No rule writes a brace for a unit that is not a brace. */
  lemma NoBraceFromOtherUnits(c: CodeUnit, t: LiteralType)
    requires !IsBrace(c)
    ensures forall k :: 0 <= k < |EscapeUnit(c, t)| ==> !IsBrace(EscapeUnit(c, t)[k])
  {
  }

  lemma {:induction false} CountAbsent(c: CodeUnit, s: seq<CodeUnit>)
    requires forall k :: 0 <= k < |s| ==> s[k] != c
    ensures Count(c, s) == 0
  {
    if s != [] {
      CountAbsent(c, s[1..]);
    }
  }

  /** Under the interpolated kinds every brace of the input is doubled, and no
      brace appears in the output otherwise. */
  lemma {:induction false} InterpolatedDoublesBraces(s: seq<CodeUnit>, t: LiteralType)
    requires t.IsInterpolated()
    ensures forall b :: IsBrace(b) ==> Count(b, Escaped(s, t)) == 2 * Count(b, s)
  {
    if s != [] {
      var e := EscapeUnit(s[0], t);
      InterpolatedDoublesBraces(s[1..], t);
      if !IsBrace(s[0]) {
        NoBraceFromOtherUnits(s[0], t);
      }
      forall b | IsBrace(b)
        ensures Count(b, Escaped(s, t)) == 2 * Count(b, s)
      {
        CountAppend(b, e, Escaped(s[1..], t));
        if IsBrace(s[0]) {
          assert e == [s[0], s[0]] && e[1..] == [s[0]];
        } else {
          CountAbsent(b, e);
        }
      }
    }
  }

  lemma {:induction false} EscapedCons(c: CodeUnit, s: seq<CodeUnit>, t: LiteralType)
    ensures Escaped([c] + s, t) == EscapeUnit(c, t) + Escaped(s, t)
  {
    assert ([c] + s)[1..] == s;
  }

  /** Worked example: a quote in a verbatim literal is doubled. */
  lemma VerbatimExample()
    ensures Escaped(['a' as int, Quote, 'b' as int], Verbatim) == ['a' as int, Quote, Quote, 'b' as int]
  {
    var t := Verbatim;
    assert EscapeUnit(Quote, t) == [Quote, Quote];
    EscapedCons('a' as int, [Quote, 'b' as int], t);
    EscapedCons(Quote, ['b' as int], t);
    EscapedSingle('b' as int, t);
  }

  /** Worked example: braces and a quote in an interpolated verbatim literal
      are all doubled, by the interpolation rule and the verbatim rule. */
  lemma InterpolatedVerbatimExample()
    ensures Escaped([LeftBrace, 'x' as int, RightBrace, Quote], InterpolatedVerbatim)
         == [LeftBrace, LeftBrace, 'x' as int, RightBrace, RightBrace, Quote, Quote]
  {
    var t := InterpolatedVerbatim;
    var e1, e2, e3, e4 := EscapeUnit(LeftBrace, t), EscapeUnit('x' as int, t),
                          EscapeUnit(RightBrace, t), EscapeUnit(Quote, t);
    assert e1 == [LeftBrace, LeftBrace] by { assert Rules(LeftBrace, t) == Some([LeftBrace, LeftBrace]); }
    assert e2 == ['x' as int] by { assert Rules('x' as int, t) == None; }
    assert e3 == [RightBrace, RightBrace] by { assert Rules(RightBrace, t) == Some([RightBrace, RightBrace]); }
    assert e4 == [Quote, Quote] by { assert Rules(Quote, t) == Some([Quote, Quote]); }
    EscapedCons(LeftBrace, ['x' as int, RightBrace, Quote], t);
    EscapedCons('x' as int, [RightBrace, Quote], t);
    EscapedCons(RightBrace, [Quote], t);
    EscapedSingle(Quote, t);
  }

  /** The escape of U+263A spelled out digit by digit. */
  lemma UnicodeEscapeExample()
    ensures UnicodeEscape(0x263A) == [Backslash, LetterU, '2' as int, '6' as int, '3' as int, 'A' as int]
  {
    assert 0x263A / 0x1000 == 2 && 0x263A / 0x100 == 0x26 && 0x263A / 0x10 == 0x263;
  }

  /** Worked example: a newline, a tab and U+263A in a regular literal become
      `\n`, `\t` and `\u263A`. */
  lemma RegularExample()
    ensures Escaped([0x0A, 0x09, 0x263A], Regular)
         == [Backslash, 'n' as int, Backslash, 't' as int,
             Backslash, LetterU, '2' as int, '6' as int, '3' as int, 'A' as int]
  {
    var t := Regular;
    UnicodeEscapeExample();
    var e1, e2, e3 := EscapeUnit(0x0A, t), EscapeUnit(0x09, t), EscapeUnit(0x263A, t);
    assert e1 == [Backslash, 'n' as int];
    assert e2 == [Backslash, 't' as int];
    assert e3 == UnicodeEscape(0x263A);
    EscapedCons(0x0A, [0x09, 0x263A], t);
    EscapedCons(0x09, [0x263A], t);
    EscapedSingle(0x263A, t);
  }

  // ---------------------------------------------------------------------
  // The imperative escaper: helpers append into a shared builder and say
  // whether they claimed the unit.

  method EscapeRegular(c: CodeUnit, sb: Builder) returns (claimed: bool)
    modifies sb
    ensures claimed == RegularRule(c).Some?
    ensures sb.chars == old(sb.chars) + (if claimed then RegularRule(c).value else [])
  {
    claimed := true;
    if c == 0x00 {
      sb.Append(Backslash); sb.Append('0' as int);
    } else if c == 0x07 {
      sb.Append(Backslash); sb.Append('a' as int);
    } else if c == 0x08 {
      sb.Append(Backslash); sb.Append('b' as int);
    } else if c == 0x0C {
      sb.Append(Backslash); sb.Append('f' as int);
    } else if c == 0x0A {
      sb.Append(Backslash); sb.Append('n' as int);
    } else if c == 0x0D {
      sb.Append(Backslash); sb.Append('r' as int);
    } else if c == 0x09 {
      sb.Append(Backslash); sb.Append('t' as int);
    } else if c == 0x0B {
      sb.Append(Backslash); sb.Append('v' as int);
    } else if c == Quote {
      sb.Append(Backslash); sb.Append(Quote);
    } else if c < 128 {
      claimed := false;
    } else {
      sb.Append(Backslash);
      sb.Append(LetterU);
      sb.Append(HexDigit(c / 0x1000));
      sb.Append(HexDigit(c / 0x100));
      sb.Append(HexDigit(c / 0x10));
      sb.Append(HexDigit(c));
    }
  }

  method EscapeVerbatim(c: CodeUnit, sb: Builder) returns (claimed: bool)
    modifies sb
    ensures claimed == VerbatimRule(c).Some?
    ensures sb.chars == old(sb.chars) + (if claimed then VerbatimRule(c).value else [])
  {
    if c == Quote {
      sb.Append(c);
      sb.Append(c);
      claimed := true;
    } else {
      claimed := false;
    }
  }

  method EscapeInterpolated(c: CodeUnit, sb: Builder) returns (claimed: bool)
    modifies sb
    ensures claimed == InterpolatedRule(c).Some?
    ensures sb.chars == old(sb.chars) + (if claimed then InterpolatedRule(c).value else [])
  {
    if c == LeftBrace || c == RightBrace {
      sb.Append(c);
      sb.Append(c);
      claimed := true;
    } else {
      claimed := false;
    }
  }

  /** The `type switch` of the escaper's loop: runs the kind's rule chain,
      stopping at the first rule that claims `c`. */
  method ApplyRules(c: CodeUnit, t: LiteralType, sb: Builder) returns (escaped: bool)
    modifies sb
    ensures escaped == Rules(c, t).Some?
    ensures sb.chars == old(sb.chars) + (if escaped then Rules(c, t).value else [])
  {
    match t {
      case Regular =>
        escaped := EscapeRegular(c, sb);
      case Verbatim =>
        escaped := EscapeVerbatim(c, sb);
      case Interpolated =>
        escaped := EscapeInterpolated(c, sb);
        if !escaped {
          escaped := EscapeRegular(c, sb);
        }
      case InterpolatedVerbatim =>
        escaped := EscapeInterpolated(c, sb);
        if !escaped {
          escaped := EscapeVerbatim(c, sb);
        }
    }
  }

  /** Escapes `s` for a literal of kind `t`, one unit at a time. */
  method Escape(s: seq<CodeUnit>, t: LiteralType) returns (r: seq<CodeUnit>)
    ensures r == Escaped(s, t)
  {
    var sb := new Builder();
    for i := 0 to |s|
      invariant sb.chars == Escaped(s[..i], t)
    {
      var c := s[i];
      ghost var before := sb.chars;
      var escaped := ApplyRules(c, t, sb);
      if !escaped {
        sb.Append(c);
      }
      assert sb.chars == before + EscapeUnit(c, t);
      EscapedSnoc(s, i, t);
    }
    assert s[..|s|] == s;
    r := sb.chars;
  }
}
