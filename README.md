# OSC annotation codec, modelled in Dafny

OSCKit can write an OSC message as one line of human-readable text, called an
*annotation*, and read such a line back. There are two styles:

- `spaces`: `/an/address/pattern 1 3.142 "a string with spaces" string true`
- `equalsComma`: `/an/address/pattern=1,3.142,"a string with spaces",string,true`

The codec has three entry points. This model gives each one as a pure function:

- `OSCAnnotation.annotation(for:with:andType:)` is `Annotation.Annotate(m, style, typed)`. With `typed` set, each
  token carries its type tag, as in `1(i)`, `3.142(f)`, `"…"(s)` and `true(T)`.
- `OSCAnnotation.isValid(annotation:with:)` is `Annotation.IsValid(text, style)`. It is a character-level
  recognizer (a finite automaton) written independently of the parser.
- `OSCAnnotation.oscMessage(for:with:)` is `Annotation.Parse(text, style)`. It returns `Option<Message>`, using a
  quote-aware tokenizer (`ReadLexeme`) and type inference (`Infer`).

The files are:

- `osc_values.dfy` holds the argument variants and their tags:
  - `Int32`: `i`
  - `Float`, held as its decimal literal: `f`
  - `Str`: `s`
  - `True`: `T`
  - `False`: `F`

  It also holds `Message(address, arguments)`.
- `numerals.dfy` holds decimal integer and float literals.
- `annotation.dfy` holds the encoder, the tokenizer and parser, and the recognizer.
- `annotation_properties.dfy` holds the general properties.
- `annotation_examples.dfy` holds each concrete annotation of the test suite, stated as a lemma.

Only the test suite `Tests/OSCKitTests/OSCAnnotation.swift` defines the behaviour here; the implementation file
is not part of this model. Where the tests are silent, the model makes these choices:

- In `spaces` style, a run of spaces may stand wherever one space may: after the address and between tokens.
- In `equalsComma` style, an empty token is invalid.
- A separator with nothing after it is invalid.
- A quoted span ends at the next double quote.
- A bare token is read in this order:
  - an integer literal in 32-bit range becomes `Int32`;
  - a decimal literal with a point becomes `Float`;
  - `true` or `false` becomes `True` or `False`;
  - anything else becomes a string.

The tests at `OSCAnnotation.swift:32` and `:38` quote a string that holds a space, in both styles, and leave
`string` bare. Where the tests are silent, the model quotes a string exactly when it holds a space.

Some rows of the table below go beyond what the tests assert. They are labelled **Extension**:

- `TokenReadsBack`, `InferReadsBack` and `ArgumentsRoundTrip`, which build up to the next one;
- the general round trip `RoundTrip`, `Parse(Annotate(m, style, false), style) == Some(m)`;
- the quote-aware splitter `SplitUnquoted`;
- `JoinedTokensSplit` and `ParsedArgumentsSplit`, which compare the splitter with the encoder and with the
  reader.

## Model

| member | source | states |
|---|---|---|
| AnnotationExamples.SpacesTypedAnnotation | Tests/OSCKitTests/OSCAnnotation.swift:29-33 | Annotating the five-argument message in `spaces` style with types gives exactly `/an/address/pattern 1(i) 3.142(f) "a string with spaces"(s) string(s) true(T)`. The expected text is written as a concatenation of its pieces. |
| AnnotationExamples.EqualsCommaTypedAnnotation | Tests/OSCKitTests/OSCAnnotation.swift:35-39 | The same message in `equalsComma` style with types gives exactly `/an/address/pattern=1(i),3.142(f),"a string with spaces"(s),string(s),true(T)`: the address, `=`, and comma-joined tokens with no spaces around the separators. |
| AnnotationExamples.SpacesAnnotationParses | Tests/OSCKitTests/OSCAnnotation.swift:41-58 | The untyped `spaces` text is valid. It parses to address `/an/address/pattern` and exactly five arguments in order: `Int32(1)`, `Float("3.142")`, the spaced string without its quotes, `Str("string")` and `True`. |
| AnnotationExamples.EqualsCommaAnnotationParses | Tests/OSCKitTests/OSCAnnotation.swift:60-77 | The untyped `equalsComma` text is valid and parses to the same address and the same five arguments in the same order. |
| AnnotationExamples.SpacesSingleQuotedString | Tests/OSCKitTests/OSCAnnotation.swift:79-88 | `/an/address/pattern "this should be a single string argument"` is valid in `spaces` style. It parses to exactly one string argument, the text without its quotes. |
| AnnotationExamples.EqualsCommaSingleQuotedString | Tests/OSCKitTests/OSCAnnotation.swift:90-99 | `/an/address/pattern="this should be a single string argument"` is valid in `equalsComma` style. It parses to exactly one string argument without its quotes. |
| AnnotationExamples.ExampleAnnotation | Tests/OSCKitTests/OSCAnnotation.swift:30-31 | The example message's annotation, in either style and typed or not, is the address, the address separator, and the five tokens in argument order with the argument separator between them. |
| AnnotationExamples.ExampleTypedTokens | Tests/OSCKitTests/OSCAnnotation.swift:32 | The typed tokens (`Token`) of the five arguments are `1(i)`, `3.142(f)`, the quoted spaced string followed by `(s)`, `string(s)` and `true(T)`. |
| AnnotationExamples.ExampleIsWellFormed | Tests/OSCKitTests/OSCAnnotation.swift:42 | In either style the example message meets the round-trip conditions. Its address is valid, `3.142` is a float literal, the spaced string is quotable, and `string` reads as no number or keyword. |
| Annotation.IsValid | Tests/OSCKitTests/OSCAnnotation.swift:43 | `isValid(annotation:with:)`, asserted at lines 43, 62, 81 and 92. A valid text starts with `/`, and a valid address on its own is a valid annotation. Its agreement with `Parse` is `ValidIffParses`. |
| AnnotationProperties.ValidIffParses | Tests/OSCKitTests/OSCAnnotation.swift:43-45 | For every text and style, `IsValid` holds exactly when `Parse` returns a message, in both directions. The tests observe this at lines 43-45, 62-64, 81-83 and 92-94. |
| AnnotationProperties.AddressParses | Tests/OSCKitTests/OSCAnnotation.swift:43-45 | From the start of the address, the recognizer accepts exactly the texts that `Parse` reads. |
| AnnotationProperties.GapRun | Tests/OSCKitTests/OSCAnnotation.swift:62 | After the address separator, the recognizer accepts the rest exactly when the argument parser reads it. |
| AnnotationProperties.AddressRun | Tests/OSCKitTests/OSCAnnotation.swift:43 | Inside the address, the recognizer accepts in two cases: the address runs to the end, or it stops at the address separator and the recognizer accepts what follows. |
| AnnotationProperties.SingleQuotedArgument | Tests/OSCKitTests/OSCAnnotation.swift:79-99 | Take any valid address, either style and any string without a double quote, whatever separators it holds. The address, the address separator and that string in quotes form a valid text that parses to exactly one string argument. |
| AnnotationProperties.QuotedSpanArgument | Tests/OSCKitTests/OSCAnnotation.swift:86-87 | A quoted span alone is one string argument, the span without its quotes. |
| AnnotationProperties.StringReadsBack | Tests/OSCKitTests/OSCAnnotation.swift:32-38 | Take a non-empty string without a quote, which holds a space or no separator, and either style. The reader returns its text (`Render`), followed by the end or a separator, as `Quoted(s)` exactly when the string holds a space, and as `Bare(s)` otherwise. What follows is left unread. The result infers as a string exactly when it is quoted or does not spell a number or keyword. |
| Annotation.Infer | Tests/OSCKitTests/OSCAnnotation.swift:48-57 | A quoted span is always a string of its inside. An inferred `Int32` is within the 32-bit range and is the value of an integer literal spelled by the token. An inferred `Float` is a float literal, the token itself. An inferred string has the token's text. |
| AnnotationProperties.InferBareClasses | Tests/OSCKitTests/OSCAnnotation.swift:48-57 | A bare token infers as `Int32` exactly when it is an in-range integer literal, and then to its value. It infers as `Float` exactly when it is a float literal, then holding that literal. It is `True` or `False` exactly when it is `true` or `false`, and a string of itself exactly when it reads as none of these. |
| AnnotationProperties.KeywordsAreNotNumbers | Tests/OSCKitTests/OSCAnnotation.swift:56-57 | `true` and `false` are neither integer nor float literals. |
| AnnotationProperties.TokenReadsBack | Tests/OSCKitTests/OSCAnnotation.swift:48-57 | **Extension.** A well-formed argument's untyped token (its `Render` text), followed by the end of the text or a separator, is read as one lexeme that infers back to that argument. |
| AnnotationProperties.InferReadsBack | Tests/OSCKitTests/OSCAnnotation.swift:48-57 | **Extension.** The lexeme of a well-formed argument infers back to the same argument. |
| AnnotationProperties.BareTokenReadsBack | Tests/OSCKitTests/OSCAnnotation.swift:54-55 | A bare token followed by the end of the text or a separator is read as exactly that token. |
| AnnotationProperties.QuotedSpanReadsBack | Tests/OSCKitTests/OSCAnnotation.swift:52-53 | A quoted span with no quote inside is read as its inside, up to the closing quote. What follows is left unread. |
| AnnotationProperties.ArgumentsRoundTrip | Tests/OSCKitTests/OSCAnnotation.swift:47 | **Extension.** Joined untyped tokens of well-formed arguments parse back to exactly those arguments, one per token, in order. |
| AnnotationProperties.RoundTrip | Tests/OSCKitTests/OSCAnnotation.swift:41-77 | **Extension.** For every well-formed message and both styles, the untyped annotation is valid and parses back to the same message. |
| AnnotationProperties.JoinTokensSnoc | Tests/OSCKitTests/OSCAnnotation.swift:32 | Adding an argument at the end of `JoinTokens` adds exactly one separator and its token at the end. |
| AnnotationProperties.AnnotateSnoc | Tests/OSCKitTests/OSCAnnotation.swift:38 | Adding an argument to a non-empty message adds exactly one argument separator and that argument's token to its annotation. |
| AnnotationProperties.Tokens | Tests/OSCKitTests/OSCAnnotation.swift:32 | The list of tokens has one entry per argument, and entry `i` is argument `i`'s token. |
| AnnotationProperties.SplitUnquoted | Tests/OSCKitTests/OSCAnnotation.swift:38 | **Extension.** Splitting at every separator outside a quoted span gives at least one part. Joining the parts with the separator gives the text back, so nothing is lost or reordered, and the first part runs up to the first such separator. |
| AnnotationProperties.JoinedTokensSplit | Tests/OSCKitTests/OSCAnnotation.swift:38 | **Extension.** Take arguments whose tokens split off cleanly, including every well-formed argument. Splitting their joined tokens at the separators outside quotes gives back exactly the token list. |
| AnnotationProperties.ParsedArgumentsSplit | Tests/OSCKitTests/OSCAnnotation.swift:60-77 | **Extension.** In `equalsComma` style, an argument list that parses has exactly one argument per part between the commas outside quoted spans. Argument `i` is inferred from part `i`, a quoted part without its quotes. |
| AnnotationProperties.AnnotationTokens | Tests/OSCKitTests/OSCAnnotation.swift:29-39 | Take a message with arguments whose tokens split off cleanly, typed or not. That covers every argument whose string has no quote and is spaced or free of separators. After its address and address separator, the annotation splits into exactly one token per argument, in argument order. Each token (`Token`) is the argument's text, followed by `(` tag `)` when types are requested. |
| Annotation.Annotate | Tests/OSCKitTests/OSCAnnotation.swift:31 | The annotation starts with the address. It is longer than the address exactly when there are arguments, and then the style's address separator follows the address. |
| Annotation.Parse | Tests/OSCKitTests/OSCAnnotation.swift:44-46 | A parsed message has a valid address (`/` first; no space, tab, line feed, carriage return, `=`, `,` or quote) that is a prefix of the text. The end of the text or the address separator follows it, and the message has no arguments exactly when the text is the address alone. |
| Annotation.ParseArguments | Tests/OSCKitTests/OSCAnnotation.swift:47 | An argument list that parses holds at least one argument. |
| Annotation.ReadLexeme | Tests/OSCKitTests/OSCAnnotation.swift:52-53 | Reading one lexeme fails only on a quote that is never closed. On success, the lexeme's spelling followed by the rest is the input, and the lexeme holds no quote. A bare lexeme is non-empty, holds no separator, and stops at a separator or a quote. |
| Annotation.AddressLength | Tests/OSCKitTests/OSCAnnotation.swift:46 | The address is the longest prefix made of address characters. |
| Annotation.BareLength | Tests/OSCKitTests/OSCAnnotation.swift:55 | A bare token is the longest prefix made of characters that are neither the separator nor a quote. |
| Numerals.NatToDigits | Tests/OSCKitTests/OSCAnnotation.swift:32 | The decimal spelling of a natural number is non-empty, all digits, and denotes that number. |
| Numerals.IntToLiteral | Tests/OSCKitTests/OSCAnnotation.swift:48-49 | An integer's spelling is an integer literal whose value is that integer, written with digits and `-` only. |
| Numerals.IntAndFloatLiteralsDisjoint | Tests/OSCKitTests/OSCAnnotation.swift:48-51 | No token is both an integer literal and a float literal, so `1` and `3.142` resolve to different variants. |
| Numerals.FloatLiteralChars | Tests/OSCKitTests/OSCAnnotation.swift:50-51 | A float literal is non-empty and made only of digits, signs and a point, so it never needs quoting. |
| Numerals.IndexOf | Tests/OSCKitTests/OSCAnnotation.swift:80 | The position found is the first occurrence of the character, or the length when there is none. |
| OscValues.TypeTagIdentifiesVariant | Tests/OSCKitTests/OSCAnnotation.swift:32 | Two arguments carry the same type tag exactly when they are the same variant. |

## Left out

- Parsing of explicit `(tag)` suffixes is not modelled, and the tests never decode a typed annotation. Typed text
  such as `1(i)` therefore reads as the string `1(i)`, and a quoted token followed by `(s)` makes the text
  invalid.
- The round trip is proved for untyped annotations only.
- Backslash-escaped quotes inside a quoted span are not modelled. A span ends at the next double quote.
- Strings that hold a double quote are also not modelled. They are outside `WellFormedArg` and are never escaped
  on encode.
- Quoting is triggered by a space only, following the tests. Two kinds of string therefore fall outside
  `WellFormedArg` and the round trip:
  - a string without a space that holds the style's separator, e.g. a comma in `equalsComma` style;
  - an empty string.
- A string without a space that spells an in-range integer, a float literal, `true` or `false`, such as
  `Str("1")` or `Str("true")`, is outside `WellFormedArg` and the round trip. Written bare, it reads back as
  `Int32`, `Float`, `True` or `False`.
- Leading or trailing whitespace other than a space (a tab, a newline) does not cause quoting. Such a string is
  written bare.
- Only the argument variants the tests use are modelled: 32-bit integer, float, string, true and false. Blob,
  64-bit integer, double, character, colour, MIDI, time tag, nil and impulse are left out.
- Floats are held as their decimal literal text (`Float("3.142")`). IEEE single-precision values, rounding and
  the `NSNumber` comparison at lines 50-51 and 69-70 are not modelled. Two literals of the same number, such as
  `3.14` and `3.140`, are different arguments here.
- Swift's conversion of literals into arguments in `OSCMessage(with:arguments:)` (lines 30 and 36) is not
  modelled. Arguments are built directly.
- `IsAddressChar`: of the whitespace characters, only space, tab, line feed and carriage return are excluded from an
  address. A vertical tab, a form feed or a non-ASCII space such as U+00A0 is accepted in an address.
- `IsValidAddress`: an address may not hold `=` or `,` in either style. So `/a=b 1` is rejected in `spaces`
  style, although `=` separates nothing there. The tests only use `/an/address/pattern`.
- `IsFloatLiteral`: exponent notation is not read as a float. A bare `1.5e3` infers as the string `1.5e3`. Only
  an optional sign, digits, one point and digits make a float.
- `Int32(value: int)`: the type admits any integer. `Infer` never builds one outside the 32-bit range, and
  `WellFormedArg` requires the range for the round trip.
- Bundles are not modelled; the annotation tests cover messages only.
- The binary wire codec, the address-pattern matcher, transport and dispatch are not part of this model.
- The XCTest scaffolding and the `allTests` registry (lines 101-108) are test plumbing and are not modelled.
