# C# string-literal codec

This is a Dafny model of the string-literal codec of CoolPaster, a small
desktop utility. The codec turns clipboard text into the body of a C# string
literal, and a literal body back into text. It handles four kinds of
literal: regular (`"…"`), verbatim (`@"…"`), interpolated (`$"…"`) and
interpolated verbatim (`$@"…"`).

- **Escaping** (`EscapeCsharp`) treats one UTF-16 code unit at a time, with
  no look-ahead:
  - The regular rule writes `\0 \a \b \f \n \r \t \v` for the eight control
    units that have one-letter escapes.
  - It writes `\"` for the quote.
  - It writes `\uXXXX`, with uppercase hex digits, for every unit of 128 or
    more.
  - It copies every other unit below 128 unchanged, the backslash included.
  - The verbatim rule doubles the quote.
  - The interpolated kinds first double `{` and `}`, then fall through to
    the rule of their base kind.
- **Unescaping** (`UnescapeCsharp`) reads through a cursor that can put back
  what it has read:
  - The regular rule decodes a backslash followed by one of ten letters, or
    by `u` and four hex digits of either case.
  - A malformed or incomplete escape is put back and copied through as it
    stands.
  - The verbatim rule reads `""` as one quote.
  - The interpolation rule reads a doubled brace as one brace.

Each direction is first stated as pure functions: `Escaped` and
`Unescaped`, built from per-unit rule functions. The imperative code is then
modelled in the source's own form:
- a builder object that is appended to;
- a `Stream` class whose position moves forward and back;
- rule methods that return whether they claimed the unit;
- the main loops.

Each method is proved to compute exactly the corresponding function. The
lemmas state what the functions guarantee, and `RoundTrip` connects the two
directions.

Code units are integers in `[0, 0x10000)`, so lone surrogates are ordinary
values, as they are in a .NET `char`. The two source files each declare a
`LiteralType` enum with the same four members; the model uses a single
`Text.LiteralType`.

## Model

| member | source | states |
|---|---|---|
| EscapeCsharp.HexDigit | EscapeCsharp.cs:131-135 | The digit written for any input is an uppercase hexadecimal digit, `0`-`9` or `A`-`F`, and its value as a digit is the low nibble of the argument. |
| EscapeCsharp.HexDigitLowNibble | EscapeCsharp.cs:131-135 | The digit depends on the low nibble of its argument only. |
| EscapeCsharp.UnicodeEscape | EscapeCsharp.cs:87-92 | No contract of its own; characterised by `RoundTrip.UnicodeEscapeDecodes`: the six units are a backslash, `u` and four hex digits that read back as the escaped unit, most significant first. |
| EscapeCsharp.RegularRule | EscapeCsharp.cs:41-98 | No contract of its own; characterised by `EscapeCsharp.RegularTable`, and `EscapeCsharp.EscapeRegular` is proved to append exactly its output. |
| EscapeCsharp.VerbatimRule | EscapeCsharp.cs:100-113 | No contract of its own; characterised by `EscapeCsharp.VerbatimOnlyDoubles`, and `EscapeCsharp.EscapeVerbatim` is proved to append exactly its output. |
| EscapeCsharp.InterpolatedRule | EscapeCsharp.cs:115-129 | No contract of its own; characterised by `EscapeCsharp.InterpolatedUnit` (a brace becomes that brace twice) and `EscapeCsharp.InterpolatedDoublesBraces`, and `EscapeCsharp.EscapeInterpolated` is proved to append exactly its output. |
| EscapeCsharp.Rules | EscapeCsharp.cs:21-27 | No contract of its own; characterised by `EscapeCsharp.InterpolatedFallsThrough` (the interpolated kinds fall through to their base kind), and `EscapeCsharp.ApplyRules` is proved to append exactly its output. |
| EscapeCsharp.EscapeUnit | EscapeCsharp.cs:19-32 | One unit's output is 1, 2 or 6 units long; a 1-unit output is the unit itself; the output starts with the unit or a backslash; for the regular and interpolated kinds, every output unit is ASCII. |
| EscapeCsharp.Escaped | EscapeCsharp.cs:16-36 | The escaped text is at least as long as the input and at most six times as long; for the regular and interpolated kinds it is pure ASCII. |
| EscapeCsharp.EscapedAppend | EscapeCsharp.cs:19-33 | Escaping distributes over concatenation, because the loop has no look-ahead. |
| EscapeCsharp.EscapedSingle | EscapeCsharp.cs:19-33 | A one-unit text escapes to that unit's output. |
| EscapeCsharp.EscapedSnoc | EscapeCsharp.cs:19-33 | Extending the input by one unit extends the output by that unit's escape. |
| EscapeCsharp.EscapedCons | EscapeCsharp.cs:19-33 | The output for a unit followed by a text is that unit's escape followed by the text's escape. |
| EscapeCsharp.RegularTable | EscapeCsharp.cs:41-98 | Regular rule table: each of the nine units in the table (the eight control units and the quote) becomes a backslash and its letter; any other unit below 128 is copied; any unit of 128 or more becomes `\uXXXX`. |
| EscapeCsharp.VerbatimOnlyDoubles | EscapeCsharp.cs:100-129 | For the verbatim kinds, removing the doubled units (the quote, plus the braces when interpolated) from the output gives the input with them removed; each doubled unit occurs exactly twice as often in the output. |
| EscapeCsharp.InterpolatedUnit | EscapeCsharp.cs:24-25 | Under the interpolated kinds, a brace's output is exactly that brace twice, so it never reaches the base rule; every other unit's output is the one its base kind gives it. |
| EscapeCsharp.InterpolatedFallsThrough | EscapeCsharp.cs:24-25 | For text without braces, an interpolated kind escapes exactly as its base kind. |
| EscapeCsharp.NoBraceFromOtherUnits | EscapeCsharp.cs:41-129 | No rule writes a brace for a unit that is not a brace. |
| EscapeCsharp.InterpolatedDoublesBraces | EscapeCsharp.cs:115-129 | For the interpolated kinds, each brace occurs exactly twice as often in the output as in the input; where each brace goes is stated unit by unit by `EscapeCsharp.InterpolatedUnit`. |
| EscapeCsharp.VerbatimExample | EscapeCsharp.cs:100-113 | In a verbatim literal, `a"b` becomes `a""b`. |
| EscapeCsharp.InterpolatedVerbatimExample | EscapeCsharp.cs:115-129 | In an interpolated verbatim literal, `{x}"` becomes `{{x}}""`. |
| EscapeCsharp.UnicodeEscapeExample | EscapeCsharp.cs:87-92 | U+263A is written as `\u263A`, most significant nibble first. |
| EscapeCsharp.RegularExample | EscapeCsharp.cs:61-92 | In a regular literal, a newline, a tab and U+263A become `\n\t\u263A`. |
| EscapeCsharp.EscapeRegular | EscapeCsharp.cs:41-98 | Claims the unit exactly when the regular rule has an output for it; appends that output, or appends nothing. |
| EscapeCsharp.EscapeVerbatim | EscapeCsharp.cs:100-113 | Claims exactly the quote and appends it twice; otherwise appends nothing. |
| EscapeCsharp.EscapeInterpolated | EscapeCsharp.cs:115-129 | Claims exactly the two braces and appends the brace twice; otherwise appends nothing. |
| EscapeCsharp.ApplyRules | EscapeCsharp.cs:21-27 | The kind's rule chain, stopping at the first rule that claims the unit; the builder grows by exactly that rule's output. |
| EscapeCsharp.Escape | EscapeCsharp.cs:16-36 | The loop over the input returns exactly `Escaped(s, t)`. |
| UnescapeCsharp.ToLower | UnescapeCsharp.cs:201 | No contract of its own; characterised by `UnescapeCsharp.HexDigitEitherCase`: upper- and lowercase hex letters are accepted alike and have the same value. |
| UnescapeCsharp.IsHexDigit | UnescapeCsharp.cs:199-203 | No contract of its own; characterised by `UnescapeCsharp.HexDigitEitherCase`: exactly `0`-`9`, `a`-`f` and `A`-`F` are accepted. |
| UnescapeCsharp.HexToInt | UnescapeCsharp.cs:205-209 | A hex digit has a value in `[0, 16)`; a decimal digit has its face value; a letter digit has a value of at least 10. |
| UnescapeCsharp.HexDigitEitherCase | UnescapeCsharp.cs:199-209 | A unit is a hex digit exactly when it is `0`-`9`, `a`-`f` or `A`-`F`; an uppercase letter digit has the same value as its lowercase form, namely its letter value plus 10. |
| UnescapeCsharp.HexQuad | UnescapeCsharp.cs:133-137 | No contract of its own; characterised by `RoundTrip.UnicodeEscapeDecodes` (the four digits the escaper writes for a unit read back as that unit) and `UnescapeCsharp.UnescapedUnicodeEscape`. |
| UnescapeCsharp.SimpleEscapeValue | UnescapeCsharp.cs:86-117 | No contract of its own; characterised by `UnescapeCsharp.SimpleEscapeTable`. |
| UnescapeCsharp.HasUnicodeEscape | UnescapeCsharp.cs:118-131 | No contract of its own; characterised by `UnescapeCsharp.UnescapedUnicodeEscape`, `UnescapeCsharp.MalformedUnicodeCopied` and `UnescapeCsharp.TruncatedUnicodeCopied`. |
| UnescapeCsharp.RegularRule | UnescapeCsharp.cs:81-163 | No contract of its own; characterised by `UnescapeCsharp.UnescapedKnownLetter`, `UnescapeCsharp.UnescapedUnicodeEscape` and `UnescapeCsharp.UnescapedBackslashCopied`, and `UnescapeCsharp.UnescapeRegular` is proved to act exactly as it says. |
| UnescapeCsharp.VerbatimRule | UnescapeCsharp.cs:165-180 | No contract of its own; characterised by `UnescapeCsharp.UnescapedDoubledQuote` and `UnescapeCsharp.UnescapedLoneQuote`, and `UnescapeCsharp.UnescapeVerbatim` is proved to act exactly as it says. |
| UnescapeCsharp.InterpolatedRule | UnescapeCsharp.cs:182-197 | No contract of its own; characterised by `UnescapeCsharp.UnescapedDoubledBrace` and `UnescapeCsharp.UnescapedLoneBrace`, and `UnescapeCsharp.UnescapeInterpolated` is proved to act exactly as it says. |
| UnescapeCsharp.Rules | UnescapeCsharp.cs:58-71 | A rule that claims the unit in hand consumes at least one and at most five of the following units, never more than there are. |
| UnescapeCsharp.Unescaped | UnescapeCsharp.cs:48-79 | The output is never longer than the input. |
| UnescapeCsharp.UnescapedLowerBound | UnescapeCsharp.cs:81-163 | The input is at most six times as long as the output. |
| UnescapeCsharp.UnescapedKnownLetter | UnescapeCsharp.cs:83-117 | For the regular kinds, a backslash and a known letter decode to that letter's unit, and scanning resumes after the letter. |
| UnescapeCsharp.SimpleEscapeTable | UnescapeCsharp.cs:86-117 | The accepted letters are exactly the letters of the escaper's table, plus the apostrophe, and each decodes to the unit that the escaper writes it for. |
| UnescapeCsharp.UnescapedUnicodeEscape | UnescapeCsharp.cs:118-139 | `\u` and four hex digits of either case decode to the unit the digits spell, with the first digit most significant; scanning resumes after the fourth digit. |
| UnescapeCsharp.UnescapedBackslashCopied | UnescapeCsharp.cs:141-158 | A backslash that starts no known escape is copied, and scanning resumes at the unit right after it. |
| UnescapeCsharp.UnescapedTrailingBackslash | UnescapeCsharp.cs:83 | A backslash at the end of the input is copied. |
| UnescapeCsharp.MalformedUnicodeCopied | UnescapeCsharp.cs:118-155 | `\uZZZZ`, whose digits are not hex, unescapes to itself. |
| UnescapeCsharp.TruncatedUnicodeCopied | UnescapeCsharp.cs:118-155 | `\u12`, cut short by the end of the input, unescapes to itself. |
| UnescapeCsharp.UnescapedDoubledQuote | UnescapeCsharp.cs:165-174 | For the verbatim kinds, `""` becomes one quote. |
| UnescapeCsharp.UnescapedLoneQuote | UnescapeCsharp.cs:165-180 | For the verbatim kinds, a quote not followed by a quote is copied. |
| UnescapeCsharp.UnescapedDoubledBrace | UnescapeCsharp.cs:182-191 | For the interpolated kinds, a doubled brace becomes one brace. |
| UnescapeCsharp.UnescapedLoneBrace | UnescapeCsharp.cs:182-197 | For the interpolated kinds, a brace not followed by the same brace falls through the base rule and is copied. |
| UnescapeCsharp.StartsNoEscape | UnescapeCsharp.cs:83-197 | No contract of its own; characterised by `UnescapeCsharp.StartsNoEscapeExactly`. |
| UnescapeCsharp.StartsNoEscapeExactly | UnescapeCsharp.cs:83-197 | The units no rule of a kind ever claims, whatever follows them, are exactly: anything but the backslash for the regular kinds, anything but the quote for the verbatim kinds, and, for the interpolated kinds, also not a brace. |
| UnescapeCsharp.UnescapedPlain | UnescapeCsharp.cs:74-75 | Text in which no unit can start an escape of the kind unescapes to itself. |
| UnescapeCsharp.UnescapedAt | UnescapeCsharp.cs:53-76 | One iteration at position `p` emits one unit, either the decoded unit or the unit in hand, and resumes after the units the claiming rule consumed. |
| UnescapeCsharp.UnescapedStep | UnescapeCsharp.cs:53-76 | One iteration of the loop extends the output by exactly what `Unescaped` emits at that position. |
| UnescapeCsharp.Stream.constructor | UnescapeCsharp.cs:23-27 | A new cursor is at position 0 of its text. |
| UnescapeCsharp.Stream.HasNext | UnescapeCsharp.cs:29-32 | No contract of its own: a unit is available exactly when the cursor is before the end of the text, which is the precondition of `Next`. |
| UnescapeCsharp.Stream.Next | UnescapeCsharp.cs:34-37 | Returns the unit at the cursor and advances the cursor by one, staying within the text. |
| UnescapeCsharp.Stream.PutBack | UnescapeCsharp.cs:39-42 | Moves the cursor back by one, staying within the text. |
| UnescapeCsharp.UnescapeRegular | UnescapeCsharp.cs:81-163 | Claims the unit exactly when the regular rule decodes the input at the cursor; if it claims, it consumes what the rule consumed and appends the decoded unit; otherwise it puts everything back and appends nothing. |
| UnescapeCsharp.UnescapeVerbatim | UnescapeCsharp.cs:165-180 | The same relation to the verbatim rule: `""` is consumed and one quote is appended; otherwise the cursor is restored. |
| UnescapeCsharp.UnescapeInterpolated | UnescapeCsharp.cs:182-197 | The same relation to the interpolation rule for a doubled brace. |
| UnescapeCsharp.ApplyRules | UnescapeCsharp.cs:58-72 | The kind's rule chain; a rule that declines leaves the cursor where it was, so the next rule sees the same input. |
| UnescapeCsharp.Unescape | UnescapeCsharp.cs:48-79 | The cursor loop returns exactly `Unescaped(s, t)`. |
| RoundTrip.HexDigitDecodes | UnescapeCsharp.cs:199-209 | Every digit the escaper writes is accepted as a hex digit and reads back as the nibble it was written for. |
| RoundTrip.NibbleSum | EscapeCsharp.cs:89-92 | A code unit is the weighted sum of its four nibbles. |
| RoundTrip.UnicodeEscapeDecodes | UnescapeCsharp.cs:118-139 | A `\uXXXX` written by the escaper is accepted by the unescaper, and its digits read back as the escaped unit. |
| RoundTrip.UnescapeEscapeUnit | UnescapeCsharp.cs:81-197 | One unit's escape, followed by any text, unescapes to that unit followed by the text's unescape. For the regular kinds this requires that the unit is not a backslash. |
| RoundTrip.UnescapeEscaped | EscapeCsharp.cs:16-36 | `Unescaped(Escaped(s, t), t) == s` for the verbatim kinds always, and for the regular kinds whenever `s` has no backslash. |
| RoundTrip.BackslashBreaksRegularRoundTrip | EscapeCsharp.cs:81-85 | The backslash condition cannot simply be dropped: escaping leaves `\n` (backslash, letter n) unchanged, and unescaping then turns it into a newline. |
| RoundTrip.BackslashesCanRoundTrip | EscapeCsharp.cs:81-85 | The no-backslash condition is not necessary: under the regular kinds, a doubled backslash and a lone backslash escape and unescape back to themselves. |
| RoundTrip.UntouchedExactly | EscapeCsharp.cs:29-32 | A unit is `Untouched` for a kind exactly when the escaper copies it and no unescaping rule of the kind claims it, whatever follows it. |
| RoundTrip.UntouchedTextUnchanged | EscapeCsharp.cs:29-32 | Text made only of units that no rule of the kind touches, in the exact sense of `RoundTrip.UntouchedExactly`, is left unchanged by both directions. |
| Text.ShiftOrIsSum | UnescapeCsharp.cs:133-137 | In 16-bit arithmetic, four nibbles shifted by 12, 8, 4 and 0 and or-ed together equal their weighted sum. This is the arithmetic `UnescapeCsharp.HexQuad` uses in place of the bitwise or. |
| Text.MaskIsRemainder | EscapeCsharp.cs:133 | In 16-bit arithmetic, masking with `0x0F` keeps the remainder modulo 16. This is the arithmetic `EscapeCsharp.HexDigit` uses in place of the mask. |
| Text.ShiftIsQuotient | EscapeCsharp.cs:89-91 | In 16-bit arithmetic, shifting right by 12, 8 or 4 divides by `0x1000`, `0x100` or `0x10`. This is the arithmetic `EscapeCsharp.UnicodeEscape` uses in place of the shifts. |
| Text.Builder.constructor | EscapeCsharp.cs:18 | A new buffer is empty, like the fresh StringBuilder of both loops. |
| Text.Builder.Append | EscapeCsharp.cs:31 | Appending adds exactly one unit at the end of the buffer. |

## Left out

- The desktop window (`MainWindow.xaml.cs`) is not part of this model: the
  window, hotkeys, clipboard polling and simulated key presses are I/O.
- JSON prettifying is not part of this model. It calls into Newtonsoft.Json,
  which is not visible here.
- The glue that wraps an escaped body in quotes, and the glue that trims
  the quotes before unescaping, are left out. They are string
  concatenation and trimming in the window code.
- `char.ToLower` is culture-dependent in .NET. `UnescapeCsharp.ToLower`
  lower-cases ASCII letters only. Hex-digit tests and values compare only
  against `0`-`9` and `a`-`f`, so the two agree wherever a letter
  lower-cases into that range.
- StringBuilder capacity hints are left out; they affect only performance.
- The escaper's `_ => false` switch arm is left out. It is unreachable for
  the four enum members, and the model's `LiteralType` has no other value.
- UnescapeCsharp.Stream.Next: requires a unit to be available, and
  UnescapeCsharp.Stream.PutBack requires a position above 0. The C# methods
  would throw or go negative otherwise, but every call site checks
  `HasNext()` first and puts back only what it has read.
- UnescapeCsharp.HexQuad: computes the decoded unit as the weighted sum of
  the four digit values rather than with shifts and bitwise or.
  `Text.ShiftOrIsSum` proves the identity on 16-bit vectors. The model does
  not prove that its integers convert to those vectors and back, because
  proofs that cross between integers and bit-vectors exceed the resource
  limit.
- EscapeCsharp.HexDigit and EscapeCsharp.UnicodeEscape: take the nibble by
  division and remainder, where the C# shifts right and masks with `0x0F`.
  Every call passes a non-negative value. `Text.ShiftIsQuotient` and
  `Text.MaskIsRemainder` prove the identities on 16-bit vectors. As for
  `HexQuad`, the step between the model's integers and bit-vectors is not
  proved.
- UnescapeCsharp.HexToInt: is total; for a unit that is not a hex digit it
  returns the same expression the C# returns, and no contract is stated for
  that case because every caller checks `IsHexDigit` first.
- RoundTrip.UnescapeEscaped: for the regular kinds, it assumes the text has
  no backslash. That condition is sufficient but not necessary. The escaper
  copies a backslash unchanged, so the round trip fails only when the next
  escaped units begin with a known escape letter, or with `u` and four hex
  digits. `\\` and a lone `\` round-trip, as
  `RoundTrip.BackslashesCanRoundTrip` states. The model does not
  characterise the exact set of texts that round-trip.
  `RoundTrip.BackslashBreaksRegularRoundTrip` shows only that the condition
  cannot simply be dropped.
