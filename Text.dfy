/** Shared vocabulary of the string-literal codec: UTF-16 code units, the
    handful of characters the rules look at, the literal-type tag, and a
    growable output buffer standing in for .NET's StringBuilder. */
module Text {

  /** A C# `char`: one UTF-16 code unit. Lone surrogates are ordinary values. */
  type CodeUnit = x: int | 0 <= x < 0x1_0000

  const Backslash: CodeUnit := '\\' as int
  const Quote: CodeUnit := '"' as int
  const Apostrophe: CodeUnit := '\'' as int
  const LeftBrace: CodeUnit := '{' as int
  const RightBrace: CodeUnit := '}' as int
  const LetterU: CodeUnit := 'u' as int

  predicate IsBrace(c: CodeUnit) {
    c == LeftBrace || c == RightBrace
  }

  /** The four kinds of C# string literal. The interpolated kinds are not
      sub-types: they try the brace rule first and then the rule of their base kind. */
  datatype LiteralType = Regular | Verbatim | Interpolated | InterpolatedVerbatim {

    predicate IsInterpolated() {
      Interpolated? || InterpolatedVerbatim?
    }

    /** Kinds whose base rule is the regular (backslash) rule. */
    predicate UsesRegularRule() {
      Regular? || Interpolated?
    }

    /** The kind whose rule an interpolated kind falls back to. */
    function Base(): LiteralType {
      match this
      case Interpolated => Regular
      case InterpolatedVerbatim => Verbatim
      case _ => this
    }
  }

  datatype Option<T> = None | Some(value: T) {

    /** This option if it holds a value, otherwise `other`: the short-circuit
        `||` with which the C# code chains its rules. */
    function OrElse(other: Option<T>): Option<T> {
      if Some? then this else other
    }
  }

  /** The control characters (and the quote) that have a one-letter escape,
      paired with that letter, in the order the C# escaper lists them. */
  const ControlEscapes: seq<(CodeUnit, CodeUnit)> :=
    [ (0x00, '0' as int), (0x07, 'a' as int), (0x08, 'b' as int), (0x0C, 'f' as int),
      (0x0A, 'n' as int), (0x0D, 'r' as int), (0x09, 't' as int), (0x0B, 'v' as int),
      (Quote, Quote) ]

  predicate HasControlEscape(c: CodeUnit) {
    exists k :: 0 <= k < |ControlEscapes| && ControlEscapes[k].0 == c
  }

  /** Number of occurrences of `c` in `s`. */
  function Count(c: CodeUnit, s: seq<CodeUnit>): nat {
    if s == [] then 0 else (if s[0] == c then 1 else 0) + Count(c, s[1..])
  }

  /** `s` with every occurrence of a member of `drop` removed. */
  function Without(drop: set<CodeUnit>, s: seq<CodeUnit>): seq<CodeUnit> {
    if s == [] then [] else (if s[0] in drop then [] else [s[0]]) + Without(drop, s[1..])
  }

  lemma {:induction false} CountAppend(c: CodeUnit, s1: seq<CodeUnit>, s2: seq<CodeUnit>)
    ensures Count(c, s1 + s2) == Count(c, s1) + Count(c, s2)
  {
    if s1 != [] {
      assert (s1 + s2)[1..] == s1[1..] + s2;
      CountAppend(c, s1[1..], s2);
    } else {
      assert s1 + s2 == s2;
    }
  }

  lemma {:induction false} WithoutAppend(drop: set<CodeUnit>, s1: seq<CodeUnit>, s2: seq<CodeUnit>)
    ensures Without(drop, s1 + s2) == Without(drop, s1) + Without(drop, s2)
  {
    if s1 != [] {
      assert (s1 + s2)[1..] == s1[1..] + s2;
      WithoutAppend(drop, s1[1..], s2);
    } else {
      assert s1 + s2 == s2;
    }
  }

  lemma ConcatAssoc<T>(a: seq<T>, b: seq<T>, c: seq<T>)
    ensures (a + b) + c == a + (b + c)
  {
  }

  // The C# code computes with shifts, masks and bitwise or; the model uses
  // the arithmetic these amount to. The identities below are stated on 16-bit
  // vectors; the conversion between the model's integers and those vectors
  // is not proved.

  /** Four nibbles shifted into place and or-ed together are their weighted sum. */
  lemma ShiftOrIsSum(h1: bv16, h2: bv16, h3: bv16, h4: bv16)
    requires h1 < 16 && h2 < 16 && h3 < 16 && h4 < 16
    ensures (h1 << 12) | (h2 << 8) | (h3 << 4) | h4 == h1 * 0x1000 + h2 * 0x100 + h3 * 0x10 + h4
  {
  }

  /** Masking with `0x0F` keeps the remainder modulo 16. */
  lemma MaskIsRemainder(d: bv16)
    ensures d & 0x0F == d % 16
  {
  }

  /** Shifting right by 12, 8 and 4 divides by 0x1000, 0x100 and 0x10. */
  lemma ShiftIsQuotient(c: bv16)
    ensures c >> 12 == c / 0x1000 && c >> 8 == c / 0x100 && c >> 4 == c / 0x10
  {
  }

  /** The output buffer both directions append to (a StringBuilder). */
  class Builder {
    var chars: seq<CodeUnit>

    constructor ()
      ensures chars == []
    {
      chars := [];
    }

    method Append(c: CodeUnit)
      modifies this
      ensures chars == old(chars) + [c]
    {
      chars := chars + [c];
    }
  }
}
