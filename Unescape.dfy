/** The unescaper: the body of a C# string literal back to raw text. It reads
    through a cursor that can put back what it has read; a rule that finds a
    malformed or incomplete escape rewinds the cursor to where it started and
    declines, and the unit in hand is then copied through.

    The rules are first stated as pure functions of the unit in hand and the
    input after it; `Unescape` and its helpers are the imperative loop over a
    `Stream`, proved to produce exactly `Unescaped`. */
module UnescapeCsharp {
  import opened Text

  /** Lower-cases an ASCII letter. Culture-specific lower-casing of other
      letters is not part of this model. */
  function ToLower(c: CodeUnit): CodeUnit {
    if 'A' as int <= c <= 'Z' as int then c + 32 else c
  }

  predicate IsHexDigit(c: CodeUnit) {
    var l := ToLower(c);
    ('0' as int <= l <= '9' as int) || ('a' as int <= l <= 'f' as int)
  }

  /** The value of a hex digit of either case. */
  function HexToInt(c: CodeUnit): (r: int)
    ensures IsHexDigit(c) ==> 0 <= r < 16
    ensures IsHexDigit(c) && c <= '9' as int ==> r == c - '0' as int
    ensures IsHexDigit(c) && c > '9' as int ==> r >= 10
  {
    var l := ToLower(c);
    if '0' as int <= l <= '9' as int then l - '0' as int else l - 'a' as int + 10
  }

  /** Hex digits are accepted in either case, and both cases of a letter
      digit have the same value. */
  lemma HexDigitEitherCase(c: CodeUnit)
    ensures IsHexDigit(c) <==>
      '0' as int <= c <= '9' as int || 'a' as int <= c <= 'f' as int || 'A' as int <= c <= 'F' as int
    ensures 'A' as int <= c <= 'F' as int ==> HexToInt(c) == HexToInt(c + 32) == c - 'A' as int + 10
  {
  }

  /** Four hex digits read as one 16-bit value, the first digit the most
      significant: `(h1 << 12) | (h2 << 8) | (h3 << 4) | h4`. The four nibbles
      occupy disjoint bits, so the bitwise or is their sum. */
  function HexQuad(h: seq<CodeUnit>): CodeUnit
    requires |h| == 4 && forall k :: 0 <= k < 4 ==> IsHexDigit(h[k])
  {
    HexToInt(h[0]) * 0x1000 + HexToInt(h[1]) * 0x100 + HexToInt(h[2]) * 0x10 + HexToInt(h[3])
  }

  /** What a rule produced: the unit it emits and how many units after the
      one in hand it consumed. */
  datatype Decoded = Decoded(unit: CodeUnit, used: nat)

  /** The unit a backslash-letter escape stands for, for the ten letters the
      regular rule knows. */
  function SimpleEscapeValue(letter: CodeUnit): Option<CodeUnit> {
    if letter == '0' as int then Some(0x00)
    else if letter == 'a' as int then Some(0x07)
    else if letter == 'b' as int then Some(0x08)
    else if letter == 'f' as int then Some(0x0C)
    else if letter == 'n' as int then Some(0x0A)
    else if letter == 'r' as int then Some(0x0D)
    else if letter == 't' as int then Some(0x09)
    else if letter == 'v' as int then Some(0x0B)
    else if letter == Apostrophe then Some(Apostrophe)
    else if letter == Quote then Some(Quote)
    else None
  }

  /** `\u` and four hex digits at the head of `rest` (which starts at the `u`). */
  predicate HasUnicodeEscape(rest: seq<CodeUnit>) {
    |rest| >= 5 && rest[0] == LetterU &&
    IsHexDigit(rest[1]) && IsHexDigit(rest[2]) && IsHexDigit(rest[3]) && IsHexDigit(rest[4])
  }

  /** The regular rule for unit `c` followed by `rest`. */
  function RegularRule(c: CodeUnit, rest: seq<CodeUnit>): Option<Decoded> {
    if c == Backslash && |rest| > 0 then
      if SimpleEscapeValue(rest[0]).Some? then Some(Decoded(SimpleEscapeValue(rest[0]).value, 1))
      else if HasUnicodeEscape(rest) then Some(Decoded(HexQuad(rest[1..5]), 5))
      else None
    else None
  }

  /** The verbatim rule: a doubled quote stands for one quote. */
  function VerbatimRule(c: CodeUnit, rest: seq<CodeUnit>): Option<Decoded> {
    if c == Quote && |rest| > 0 && rest[0] == Quote then Some(Decoded(Quote, 1)) else None
  }

  /** The interpolation rule: a doubled brace stands for one brace. */
  function InterpolatedRule(c: CodeUnit, rest: seq<CodeUnit>): Option<Decoded> {
    if IsBrace(c) && |rest| > 0 && rest[0] == c then Some(Decoded(c, 1)) else None
  }

  /** The rule chain a literal kind applies to the unit in hand. A rule that
      claims the unit consumes at least one and at most five further units. */
  function Rules(c: CodeUnit, rest: seq<CodeUnit>, t: LiteralType): (r: Option<Decoded>)
    ensures r.Some? ==> 1 <= r.value.used <= |rest| && r.value.used <= 5
  {
    match t
    case Regular => RegularRule(c, rest)
    case Verbatim => VerbatimRule(c, rest)
    case Interpolated => InterpolatedRule(c, rest).OrElse(RegularRule(c, rest))
    case InterpolatedVerbatim => InterpolatedRule(c, rest).OrElse(VerbatimRule(c, rest))
  }

  /** The raw text a literal body stands for: each step emits exactly one unit,
      either what the claiming rule decoded or the unit in hand itself, and
      consumes at least one, so the output is never longer than the input. */
  function Unescaped(s: seq<CodeUnit>, t: LiteralType): (r: seq<CodeUnit>)
    ensures |r| <= |s|
    decreases |s|
  {
    if s == [] then []
    else match Rules(s[0], s[1..], t)
      case Some(d) => [d.unit] + Unescaped(s[1 + d.used..], t)
      case None => [s[0]] + Unescaped(s[1..], t)
  }

  /** Each step consumes at most six units, so the output is at least a
      sixth of the input. */
  lemma {:induction false} UnescapedLowerBound(s: seq<CodeUnit>, t: LiteralType)
    ensures |s| <= 6 * |Unescaped(s, t)|
    decreases |s|
  {
    if s != [] {
      var r := Rules(s[0], s[1..], t);
      if r.Some? {
        UnescapedLowerBound(s[1 + r.value.used..], t);
      } else {
        UnescapedLowerBound(s[1..], t);
      }
    }
  }

  // ---------------------------------------------------------------------
  // Facts about what the rules do to particular inputs.

  /** A backslash and a letter the regular rule knows decode to that letter's
      unit and consume two input units. */
  lemma UnescapedKnownLetter(t: LiteralType, x: CodeUnit, rest: seq<CodeUnit>)
    requires t.UsesRegularRule() && SimpleEscapeValue(x).Some?
    ensures Unescaped([Backslash, x] + rest, t) == [SimpleEscapeValue(x).value] + Unescaped(rest, t)
  {
    var s := [Backslash, x] + rest;
    assert s[1..][0] == x;
    assert s[2..] == rest;
  }

  /** The letters are exactly the ones the escaper writes for the control
      units and the quote, plus the apostrophe: the escape table read backwards. */
  lemma SimpleEscapeTable()
    ensures forall k :: 0 <= k < |ControlEscapes| ==>
      SimpleEscapeValue(ControlEscapes[k].1) == Some(ControlEscapes[k].0)
    ensures SimpleEscapeValue(Apostrophe) == Some(Apostrophe)
    ensures forall x :: SimpleEscapeValue(x).Some? ==>
      x == Apostrophe || exists k :: 0 <= k < |ControlEscapes| && ControlEscapes[k].1 == x
  {
    forall x | SimpleEscapeValue(x).Some?
      ensures x == Apostrophe || exists k :: 0 <= k < |ControlEscapes| && ControlEscapes[k].1 == x
    {
      if x == '0' as int { assert ControlEscapes[0].1 == x; }
      else if x == 'a' as int { assert ControlEscapes[1].1 == x; }
      else if x == 'b' as int { assert ControlEscapes[2].1 == x; }
      else if x == 'f' as int { assert ControlEscapes[3].1 == x; }
      else if x == 'n' as int { assert ControlEscapes[4].1 == x; }
      else if x == 'r' as int { assert ControlEscapes[5].1 == x; }
      else if x == 't' as int { assert ControlEscapes[6].1 == x; }
      else if x == 'v' as int { assert ControlEscapes[7].1 == x; }
      else if x == Quote { assert ControlEscapes[8].1 == x; }
    }
  }

  /** `\u` and four hex digits (either case) decode to the unit they spell and
      consume six input units. */
  lemma UnescapedUnicodeEscape(t: LiteralType, h: seq<CodeUnit>, rest: seq<CodeUnit>)
    requires t.UsesRegularRule()
    requires |h| == 4 && forall k :: 0 <= k < 4 ==> IsHexDigit(h[k])
    ensures Unescaped([Backslash, LetterU] + h + rest, t) == [HexQuad(h)] + Unescaped(rest, t)
  {
    var s := [Backslash, LetterU] + h + rest;
    assert s[1..][1..5] == h;
    assert s[6..] == rest;
  }

  /** A backslash that does not start a known escape is copied, and scanning
      resumes at the unit right after it. This covers an unknown letter, a
      second backslash, and `\u` without four hex digits. */
  lemma UnescapedBackslashCopied(t: LiteralType, x: CodeUnit, rest: seq<CodeUnit>)
    requires t.UsesRegularRule()
    requires SimpleEscapeValue(x).None? && !HasUnicodeEscape([x] + rest)
    ensures Unescaped([Backslash, x] + rest, t) == [Backslash] + Unescaped([x] + rest, t)
  {
    var s := [Backslash, x] + rest;
    assert s[1..] == [x] + rest;
  }

  /** A backslash at the end of the input is copied. */
  lemma UnescapedTrailingBackslash(t: LiteralType)
    ensures Unescaped([Backslash], t) == [Backslash]
  {
  }

  /** Verbatim kinds: a doubled quote becomes one quote. */
  lemma UnescapedDoubledQuote(t: LiteralType, rest: seq<CodeUnit>)
    requires !t.UsesRegularRule()
    ensures Unescaped([Quote, Quote] + rest, t) == [Quote] + Unescaped(rest, t)
  {
    var s := [Quote, Quote] + rest;
    assert s[2..] == rest;
  }

  /** Verbatim kinds: a quote not followed by another is copied. */
  lemma UnescapedLoneQuote(t: LiteralType, rest: seq<CodeUnit>)
    requires !t.UsesRegularRule()
    requires rest == [] || rest[0] != Quote
    ensures Unescaped([Quote] + rest, t) == [Quote] + Unescaped(rest, t)
  {
    var s := [Quote] + rest;
    assert s[1..] == rest;
  }

  /** Interpolated kinds: a doubled brace becomes one brace. */
  lemma UnescapedDoubledBrace(t: LiteralType, b: CodeUnit, rest: seq<CodeUnit>)
    requires t.IsInterpolated() && IsBrace(b)
    ensures Unescaped([b, b] + rest, t) == [b] + Unescaped(rest, t)
  {
    var s := [b, b] + rest;
    assert s[2..] == rest;
  }

  /** Interpolated kinds: a brace not followed by the same brace falls through
      to the base rule, which does not claim it either, and is copied. */
  lemma UnescapedLoneBrace(t: LiteralType, b: CodeUnit, rest: seq<CodeUnit>)
    requires t.IsInterpolated() && IsBrace(b)
    requires rest == [] || rest[0] != b
    ensures Unescaped([b] + rest, t) == [b] + Unescaped(rest, t)
  {
    var s := [b] + rest;
    assert s[1..] == rest;
  }

  /** A unit that cannot start an escape in a literal of kind `t`: the
      regular kinds escape with a backslash, the verbatim kinds with a quote,
      and the interpolated kinds also with a brace. */
  predicate StartsNoEscape(c: CodeUnit, t: LiteralType) {
    (t.UsesRegularRule() ==> c != Backslash) &&
    (!t.UsesRegularRule() ==> c != Quote) &&
    (t.IsInterpolated() ==> !IsBrace(c))
  }

  /** The units that start no escape are exactly those no rule of the kind
      claims, whatever follows them. */
  lemma StartsNoEscapeExactly(c: CodeUnit, t: LiteralType)
    ensures StartsNoEscape(c, t) <==> forall rest :: Rules(c, rest, t).None?
  {
    if !StartsNoEscape(c, t) {
      var rest := if t.IsInterpolated() && IsBrace(c) then [c]
                  else if t.UsesRegularRule() then ['n' as int]
                  else [Quote];
      assert Rules(c, rest, t).Some?;
    }
  }

  /** Text in which no unit starts an escape is its own unescaped form. */
  lemma {:induction false} UnescapedPlain(s: seq<CodeUnit>, t: LiteralType)
    requires forall k :: 0 <= k < |s| ==> StartsNoEscape(s[k], t)
    ensures Unescaped(s, t) == s
  {
    if s != [] {
      UnescapedPlain(s[1..], t);
    }
  }

  /** A `\u` escape with a digit that is not hex is copied through
      unchanged: `\uZZZZ` unescapes to itself. */
  lemma MalformedUnicodeCopied()
    ensures var bad := [Backslash, LetterU, 'Z' as int, 'Z' as int, 'Z' as int, 'Z' as int];
      Unescaped(bad, Regular) == bad
  {
    var zs := ['Z' as int, 'Z' as int, 'Z' as int, 'Z' as int];
    assert !IsHexDigit('Z' as int);
    assert !HasUnicodeEscape([LetterU] + zs);
    UnescapedBackslashCopied(Regular, LetterU, zs);
    UnescapedPlain([LetterU] + zs, Regular);
    assert [Backslash, LetterU] + zs == [Backslash, LetterU, 'Z' as int, 'Z' as int, 'Z' as int, 'Z' as int];
  }

  /** A `\u` escape cut short by the end of the input is copied through
      unchanged: `\u12` unescapes to itself. */
  lemma TruncatedUnicodeCopied()
    ensures var short := [Backslash, LetterU, '1' as int, '2' as int];
      Unescaped(short, Regular) == short
  {
    var ds := ['1' as int, '2' as int];
    assert !HasUnicodeEscape([LetterU] + ds);
    UnescapedBackslashCopied(Regular, LetterU, ds);
    UnescapedPlain([LetterU] + ds, Regular);
    assert [Backslash, LetterU] + ds == [Backslash, LetterU, '1' as int, '2' as int];
  }

  // ---------------------------------------------------------------------
  // The imperative unescaper.

  /** `Unescaped` at position `p` of `s` emits one unit and resumes at `q`. */
  lemma UnescapedAt(s: seq<CodeUnit>, p: nat, t: LiteralType) returns (q: nat, emitted: seq<CodeUnit>)
    requires p < |s|
    ensures var r := Rules(s[p], s[p + 1..], t);
      q == p + 1 + (if r.Some? then r.value.used else 0) &&
      emitted == (if r.Some? then [r.value.unit] else [s[p]])
    ensures q <= |s| && Unescaped(s[p..], t) == emitted + Unescaped(s[q..], t)
  {
    assert s[p..][1..] == s[p + 1..];
    var r := Rules(s[p], s[p + 1..], t);
    q := p + 1 + (if r.Some? then r.value.used else 0);
    emitted := if r.Some? then [r.value.unit] else [s[p]];
    if r.Some? {
      assert s[p..][1 + r.value.used..] == s[q..];
    }
  }

  /** One step of the unescaping loop: if `done` is what has been emitted
      for the input before position `p`, then after the step at `p` it has
      grown by exactly the one unit `Unescaped` emits there. */
  lemma UnescapedStep(s: seq<CodeUnit>, p: nat, t: LiteralType, done: seq<CodeUnit>, q: nat, done': seq<CodeUnit>)
    requires p < |s|
    requires done + Unescaped(s[p..], t) == Unescaped(s, t)
    requires var r := Rules(s[p], s[p + 1..], t);
      q == p + 1 + (if r.Some? then r.value.used else 0) &&
      done' == done + (if r.Some? then [r.value.unit] else [s[p]])
    ensures q <= |s| && done' + Unescaped(s[q..], t) == Unescaped(s, t)
  {
    var q', emitted := UnescapedAt(s, p, t);
    ConcatAssoc(done, emitted, Unescaped(s[q..], t));
  }

  /** A string read one unit at a time, with one-step put-back. */
  class Stream {
    const text: seq<CodeUnit>
    var position: int

    ghost predicate Valid()
      reads this
    {
      0 <= position <= |text|
    }

    constructor (s: seq<CodeUnit>)
      ensures text == s && position == 0 && Valid()
    {
      text := s;
      position := 0;
    }

    predicate HasNext()
      reads this
    {
      position < |text|
    }

    method Next() returns (c: CodeUnit)
      requires Valid() && HasNext()
      modifies this
      ensures Valid() && position == old(position) + 1 && c == text[old(position)]
    {
      c := text[position];
      position := position + 1;
    }

    /** Steps back over the unit last read. */
    method PutBack()
      requires Valid() && position > 0
      modifies this
      ensures Valid() && position == old(position) - 1
    {
      position := position - 1;
    }
  }

  /** The regular rule, run against the stream just after `c` was read. On
      success it consumes the escape and appends the decoded unit; on failure
      it puts back everything it read, so the cursor is where it started. */
  method UnescapeRegular(c: CodeUnit, input: Stream, sb: Builder) returns (unescaped: bool)
    requires input.Valid()
    modifies input, sb
    ensures input.Valid()
    ensures var r := RegularRule(c, input.text[old(input.position)..]);
      unescaped == r.Some? &&
      input.position == old(input.position) + (if unescaped then r.value.used else 0) &&
      sb.chars == old(sb.chars) + (if unescaped then [r.value.unit] else [])
  {
    ghost var rest := input.text[input.position..];
    if c == Backslash && input.HasNext() {
      var cc := input.Next();
      if cc == '0' as int {
        sb.Append(0x00);
        return true;
      } else if cc == 'a' as int {
        sb.Append(0x07);
        return true;
      } else if cc == 'b' as int {
        sb.Append(0x08);
        return true;
      } else if cc == 'f' as int {
        sb.Append(0x0C);
        return true;
      } else if cc == 'n' as int {
        sb.Append(0x0A);
        return true;
      } else if cc == 'r' as int {
        sb.Append(0x0D);
        return true;
      } else if cc == 't' as int {
        sb.Append(0x09);
        return true;
      } else if cc == 'v' as int {
        sb.Append(0x0B);
        return true;
      } else if cc == Apostrophe {
        sb.Append(Apostrophe);
        return true;
      } else if cc == Quote {
        sb.Append(Quote);
        return true;
      } else if cc == LetterU {
        if input.HasNext() {
          var u1 := input.Next();
          if IsHexDigit(u1) && input.HasNext() {
            var u2 := input.Next();
            if IsHexDigit(u2) && input.HasNext() {
              var u3 := input.Next();
              if IsHexDigit(u3) && input.HasNext() {
                var u4 := input.Next();
                if IsHexDigit(u4) {
                  assert rest[1..5] == [u1, u2, u3, u4];
                  var ccc := HexQuad([u1, u2, u3, u4]);
                  sb.Append(ccc);
                  return true;
                }
                input.PutBack(); // hex nibble 4
              }
              input.PutBack(); // hex nibble 3
            }
            input.PutBack(); // hex nibble 2
          }
          input.PutBack(); // hex nibble 1
        }
        input.PutBack(); // 'u'
        return false;
      } else {
        input.PutBack();
        return false;
      }
    }
    return false;
  }

  /** The verbatim rule against the stream just after `c` was read. */
  method UnescapeVerbatim(c: CodeUnit, input: Stream, sb: Builder) returns (unescaped: bool)
    requires input.Valid()
    modifies input, sb
    ensures input.Valid()
    ensures var r := VerbatimRule(c, input.text[old(input.position)..]);
      unescaped == r.Some? &&
      input.position == old(input.position) + (if unescaped then r.value.used else 0) &&
      sb.chars == old(sb.chars) + (if unescaped then [r.value.unit] else [])
  {
    if c == Quote && input.HasNext() {
      var cc := input.Next();
      if cc == Quote {
        sb.Append(Quote);
        return true;
      }
      input.PutBack();
    }
    return false;
  }

  /** The interpolation rule against the stream just after `c` was read. */
  method UnescapeInterpolated(c: CodeUnit, input: Stream, sb: Builder) returns (unescaped: bool)
    requires input.Valid()
    modifies input, sb
    ensures input.Valid()
    ensures var r := InterpolatedRule(c, input.text[old(input.position)..]);
      unescaped == r.Some? &&
      input.position == old(input.position) + (if unescaped then r.value.used else 0) &&
      sb.chars == old(sb.chars) + (if unescaped then [r.value.unit] else [])
  {
    if (c == LeftBrace || c == RightBrace) && input.HasNext() {
      var cc := input.Next();
      if cc == c {
        sb.Append(c);
        return true;
      }
      input.PutBack();
    }
    return false;
  }

  /** The `switch (type)` of the unescaper's loop: runs the kind's rule chain;
      a rule that declines has left the cursor alone, so the next rule sees
      the same input. */
  method ApplyRules(c: CodeUnit, t: LiteralType, input: Stream, sb: Builder) returns (unescaped: bool)
    requires input.Valid()
    modifies input, sb
    ensures input.Valid()
    ensures var r := Rules(c, input.text[old(input.position)..], t);
      unescaped == r.Some? &&
      input.position == old(input.position) + (if unescaped then r.value.used else 0) &&
      sb.chars == old(sb.chars) + (if unescaped then [r.value.unit] else [])
  {
    match t {
      case Regular =>
        unescaped := UnescapeRegular(c, input, sb);
      case Verbatim =>
        unescaped := UnescapeVerbatim(c, input, sb);
      case Interpolated =>
        unescaped := UnescapeInterpolated(c, input, sb);
        if !unescaped {
          unescaped := UnescapeRegular(c, input, sb);
        }
      case InterpolatedVerbatim =>
        unescaped := UnescapeInterpolated(c, input, sb);
        if !unescaped {
          unescaped := UnescapeVerbatim(c, input, sb);
        }
    }
  }

  /** Unescapes `s` read as the body of a literal of kind `t`. */
  method Unescape(s: seq<CodeUnit>, t: LiteralType) returns (r: seq<CodeUnit>)
    ensures r == Unescaped(s, t)
  {
    var sb := new Builder();
    var input := new Stream(s);
    while input.HasNext()
      invariant input.Valid() && input.text == s
      invariant sb.chars + Unescaped(s[input.position..], t) == Unescaped(s, t)
      decreases |s| - input.position
    {
      ghost var p := input.position;
      ghost var done := sb.chars;
      var c := input.Next();
      var unescaped := ApplyRules(c, t, input, sb);
      if !unescaped {
        sb.Append(c);
      }
      UnescapedStep(s, p, t, done, input.position, sb.chars);
    }
    r := sb.chars;
  }
}
