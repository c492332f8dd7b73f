# rbxver in Dafny

A model of the Roblox version codec `rbxver`. A `Version` is four integer
components: major, minor, patch and maint. The codec does four things:

- it renders a version as text under one of six formats, `Any`, `Dot`,
  `Comma`, `AnySpace`, `DotSpace` and `CommaSpace`;
- it parses bytes of the grammar `INT SEP INT SEP INT SEP INT` back into a
  version, returning the number of bytes consumed and, on failure, one of two
  errors (`io.ErrUnexpectedEOF`, `ErrSyntax`);
- `ParseString` accepts the input only when the parse consumed all of it
  without error;
- `Less` compares two versions.

Files:

- `ascii.dfy` (module `Ascii`): bytes, ASCII whitespace and digits, skipping
  runs of either, the value of a digit run, and the canonical decimal
  rendering of a natural number. These stand in for `bytes.TrimLeftFunc`,
  `unicode.IsSpace`, `strconv.ParseInt` and `strconv.AppendInt`.
- `version.dfy` (module `Rbxver`): the formats and `Version`; `formatInt`,
  `Format`, `String` and `Less`; parsing twice over:
  - specification functions `ScanInt`, `ScanSep`, `Components` and `Parsed`;
  - the step-by-step methods `ParseInt`, `ParseSep` and `Parse`, each proved
    to return exactly what its specification function gives. The three
    identical `parseInt`, `parseSep` pairs of `Parse` are one method,
    `ParseStep`, called for components 0, 1 and 2; `ParseLast` reads the
    fourth component. `Parse` itself does the format switch, the leading
    trim and the empty-input check, then calls `ParseComponents` (components
    0 and 1), which calls `ParseTail` (components 2 and 3); this split only
    keeps each proof small and changes no step or its order.
- `properties.dfy` (module `ParseProperties`): what parsing does for every
  input. It covers the round trip of `Format` and `ParseString`, the
  consumed count, the partial version, the error kind and offset on each way
  of failing, whitespace handling, and separator guessing.
- `order.dfy` (module `VersionOrder`): properties of `Less`, and the
  lexicographic order `LexLess`.

Modelling choices:

- Reslicing becomes an offset. The source narrows its input in place
  (`*b = (*b)[i:]`). The model keeps the original bytes `b` and an offset
  `i` into them, so a slice resliced past its first `i` bytes is the pair
  (`b`, `i`). The count `n = l - len(b)` that `Parse` returns is then the
  offset reached.
- The separator state is `Sep = Guess | Expect(lit)`. `Guess` is Go's
  `nil` slice; `Expect(lit)` holds the separator bytes once they are known.
- Go's `int` is `int64`, with `MaxInt` = 2^63 − 1.
- Whitespace is the ASCII set: space, `\t`, `\n`, `\v`, `\f` and `\r`.

Where the code and its own documentation differ, the model follows the code:

- `Comma` writes and expects a single `,` with no space
  (version.go:61, version.go:165-166). The doc comment at version.go:21 says
  it formats as `0, 0, 0, 0`.
- Guessing takes a single `.` or `,` byte (version.go:128-130). Under `Any`,
  a comma need not be followed by a space, and a comma followed by a space
  is a syntax error at the space.
- `Less` is true as soon as any component is smaller (version.go:84-98).
  It is not the lexicographic order that "semantically lower" describes
  (see Findings).
- The parse result carries no note of which separator was guessed.

## Model

| member | source | states |
|---|---|---|
| Ascii.SpaceEnd | version.go:121 | Whitespace trimming stops at the first position at or after `i` that holds a non-space (or the end), and every byte skipped is whitespace |
| Ascii.SpaceEndAt | version.go:121 | After a run of spaces that ends at a non-space or at the end, trimming returns exactly the end of that run |
| Ascii.DigitEnd | version.go:105 | The digit loop stops at a non-digit or the end, and every byte it passes is a decimal digit |
| Ascii.DigitEndAt | version.go:105 | A digit run followed by a non-digit or the end is scanned to exactly its end |
| Ascii.Decimal | version.go:49 | The rendering of `n` is a non-empty digit string with no superfluous leading zero whose base-10 value is `n` |
| Ascii.DecimalOfCanonical | version.go:49 | Rendering inverts evaluation on canonical digit strings, so the rendering is the only canonical string with that value |
| Rbxver.FormatInt | version.go:43-50 | A component ≤ 0 is written as the single digit `0`; a positive one in canonical decimal whose value is the component |
| Rbxver.Version.Format | version.go:55-76 | The builder ends up holding the four component renderings joined by three copies of the format's separator (`.`, `,` or `, `) |
| Rbxver.Version.String | version.go:78-81 | The default rendering is the dot rendering, the same under `Any`, `Dot` and `DotSpace` |
| Rbxver.Version.Less | version.go:84-98 | `v.Less(u)` holds exactly when at least one component of `v` is strictly below the same component of `u` |
| Rbxver.Version.LexLess | version.go:83 | Lexicographic comparison: some component is smaller and all earlier ones are equal |
| Rbxver.ScanInt | version.go:103-114 | The position reached stays between the start and the end of the input (what it reads is stated by `ScanIntOutcome`) |
| Rbxver.ScanSep | version.go:119-147 | A separator read advances the position and yields a known non-empty separator. A known separator stays unchanged. Without whitespace skipping, a failure consumes nothing |
| Rbxver.Components | version.go:186-209 | The position reached after the remaining components stays within the input |
| Rbxver.Parsed | version.go:158-211 | The consumed count never exceeds the input length |
| Rbxver.ParseString | version.go:213-220 | A parse that consumed the whole input without error gives its version; otherwise the result is the zero version |
| Rbxver.ParseInt | version.go:103-114 | The digit loop and base-10 conversion with range check return success, value and new position exactly as `ScanInt` gives them |
| Rbxver.ParseSep | version.go:119-147 | Trimming, guessing or matching, advancing and trimming again return the error, separator state and position exactly as `ScanSep` gives them |
| Rbxver.ComponentRejected | version.go:186-205 | A component that cannot be read stops parsing with a syntax error at its start, keeping the version built so far |
| Rbxver.SeparatorHalted | version.go:189-202 | A separator that cannot be read stops parsing where `parseSep` stopped, with its error, keeping the component just read |
| Rbxver.ComponentThenNext | version.go:186-201 | A component and separator both read, parsing continues at the next component with the component filled in and the separator state `parseSep` left |
| Rbxver.LastComponent | version.go:204-210 | The fourth component read, parsing succeeds after the trailing whitespace the format allows |
| Rbxver.ParseStep | version.go:186-202 | One `parseInt`, `parseSep` pair either stops with the outcome the whole parse reaches, or leaves that same outcome to the following components |
| Rbxver.ParseLast | version.go:204-210 | The last `parseInt` and the trailing trim end with the outcome the whole parse reaches |
| Rbxver.ParseComponents | version.go:186-210 | From the first component on, the seven steps return version, consumed count and error exactly as `Components` gives them |
| Rbxver.ParseTail | version.go:198-210 | The patch component, its separator and the maint component end with the outcome the whole parse reaches |
| Rbxver.Parse | version.go:158-211 | The format switch, the leading trim, the empty-input error and the seven steps return version, consumed count and error exactly as `Parsed` gives them |
| ParseProperties.TextIsJoin | version.go:67-75 | The rendering is the component texts joined by the separator |
| ParseProperties.PartsReadBack | version.go:43-50 | Every rendered component is a digit run within the int range whose value is the component with negatives replaced by 0 |
| ParseProperties.ScanIntOfRun | version.go:103-114 | A digit run within range followed by a non-digit is read to its value, and the position moves to its end |
| ParseProperties.ScanSepOfFormatted | version.go:134-146 | The separator the format writes is accepted by each separator state parsing under that format can be in, and fixes the state to that byte |
| ParseProperties.ComponentsOfJoin | version.go:186-206 | Reading digit runs joined by the format's separator fills the corresponding components and stops at the end of the joined text |
| ParseProperties.ScanIntOutcome | version.go:103-114 | `parseInt` fails at the start position, or reads a non-empty maximal digit run whose value is at most MaxInt and is the component |
| ParseProperties.NoDigitRejected | version.go:105-110 | With no digit at the position (a `-`, a space, a separator, or the end), `parseInt` fails without consuming |
| ParseProperties.OverflowRejected | version.go:107-110 | A digit run whose value exceeds MaxInt fails without consuming |
| ParseProperties.ScanSepOutcome | version.go:119-147 | The three outcomes of `parseSep` for a one-byte separator state: EOF after trimming, or an accepted byte that fixes the separator and is passed with the whitespace after it, or a syntax error at the offending byte |
| ParseProperties.SpaceNotSkipped | version.go:119-141 | Without whitespace skipping, a space where a separator is expected is a syntax error at that space |
| ParseProperties.SpacesAroundSeparator | version.go:120-145 | With whitespace skipping, whitespace before and after an accepted separator is consumed |
| ParseProperties.ParsedFrom | version.go:179-186 | After leading whitespace (Space formats only), parsing starts the first component at the first non-space |
| ParseProperties.ParsedOfJoin | version.go:179-211 | Up to four digit runs joined by the format's separator are read into the leading components, and the separator state then expected is determined |
| ParseProperties.ParsedOfText | version.go:179-211 | A rendering, after allowed leading whitespace and followed by a non-digit or the end, parses without error to the clamped version, consuming it and any trailing whitespace the format allows |
| ParseProperties.RoundTrip | version.go:55-220 | For every format, parsing the rendering consumes all of it without error and gives the version with negative components replaced by 0, and so does `ParseString` |
| ParseProperties.RoundTripNatural | version.go:55-220 | For a version with no negative component, `ParseString` of its rendering is the version itself |
| ParseProperties.StringRoundTrip | version.go:78-81 | The default rendering reads back under `Any`, `Dot`, `AnySpace` and `DotSpace` |
| ParseProperties.TrailingDataLeft | version.go:204-218 | Bytes after the fourth component that are neither digit nor skipped whitespace are left unconsumed without error, and `ParseString` then gives the zero version |
| ParseProperties.SurroundingSpaceTaken | version.go:179-210 | Under a Space format, whitespace before and after a rendering is consumed and `ParseString` returns the version |
| ParseProperties.EmptyOrBlank | version_test.go:17-19 | Empty input, or all-whitespace input under a Space format, gives `ErrUnexpectedEOF` with the zero version and the whole length consumed |
| ParseProperties.FirstComponentRejected | version.go:183-188 | When no first component can be read, parsing fails with a syntax error at its position and the zero version |
| ParseProperties.NonDigitStartRejected | version_test.go:20-34 | In a non-Space format, input that does not start with a digit (a space, a letter, a separator) is a syntax error at 0, as also in the rows at version_test.go:38-40 |
| ParseProperties.FirstComponentOverflow | version.go:186-188 | A first component beyond MaxInt is a syntax error that does not advance the count |
| ParseProperties.TruncatedAtSeparator | version_test.go:35-43 | Input that ends, perhaps after whitespace the format allows, where a separator is expected gives `ErrUnexpectedEOF`, the components read so far, and the whole input counted |
| ParseProperties.SeparatorRejected | version_test.go:46-67 | A byte the separator state does not accept gives `ErrSyntax` at that byte with the components read so far and 0 after them |
| ParseProperties.ComponentMissing | version_test.go:59-68 | An accepted separator followed by no digit run gives `ErrSyntax` at the missing component's start with the components read so far |
| ParseProperties.ComponentsFacts | version.go:186-210 | Components read are never negative; a failure leaves maint 0; a success consumes at least one byte per component and separator |
| ParseProperties.ParsedFacts | version.go:158-211 | Every parsed component is non-negative, a failed parse leaves maint 0, and a successful one consumes at least 7 bytes and at most the input |
| ParseProperties.GuessAtComponent | version.go:126-141 | From any component on, guessing behaves exactly as expecting the separator byte found after that component (`,` if it is a comma, `.` otherwise), and so as expecting `.` or `,`, and as whichever one succeeds |
| ParseProperties.ParsedAt | version.go:179-186 | Once leading whitespace is trimmed (Space formats only) and input remains, the parse is the four components read from there |
| ParseProperties.AnyFollowsFirstSeparator | version.go:126-133 | A guessing format parses every input exactly as the fixed-separator format whose separator is the byte found at the first boundary, failures included |
| ParseProperties.FixedSeparatorWins | version.go:126-141 | Wherever a fixed-separator format succeeds, the guessing format with the same whitespace rule gives the same result |
| ParseProperties.AnyIsDotOrComma | version.go:126-177 | `Any` parses every input exactly as `Comma` when the byte after the first component is `,` and exactly as `Dot` otherwise, failures included, and as whichever of them succeeds; likewise `AnySpace` with `CommaSpace` and `DotSpace`, looking past whitespace |
| ParseProperties.CommaTextUnderAny | version.go:126-133 | The comma rendering also reads back under `Any` |
| VersionOrder.LessIrreflexive | version.go:84-98 | No version is `Less` than itself |
| VersionOrder.NotLessWhenNoneSmaller | version.go:84-98 | `Less` is false when every component of `v` is at least the matching component of `u` |
| VersionOrder.LessNotAsymmetric | version.go:84-98 | {2,0,0,0} and {1,5,0,0} are each `Less` than the other |
| VersionOrder.LexLessIrreflexive | version.go:83 | No version is lexicographically below itself |
| VersionOrder.LexLessAsymmetric | version.go:83 | Lexicographic order is asymmetric |
| VersionOrder.LexLessTransitive | version.go:83 | Lexicographic order is transitive |
| VersionOrder.LexLessTotal | version.go:83 | Any two different versions are lexicographically ordered one way or the other |
| VersionOrder.LexLessIsLess | version.go:83-98 | Lexicographically lower implies `Less`, but not the converse: `{2,0,0,0}` is `Less` than `{1,5,0,0}` without being lexicographically lower |

## Left out

- Unicode whitespace: `unicode.IsSpace` on decoded UTF-8 runes also accepts multi-byte spaces such as U+0085, U+00A0 and U+2000–U+200A. The model treats only the six ASCII whitespace bytes as space.
- `strconv`: the conversion is written out as a digit loop with a range check instead of modelling `strconv.ParseInt`. It is only ever given digits, so its sign handling and its `n < 0` branch cannot trigger and are not modelled.
- `strconv.IntSize` is platform dependent; the model fixes it at 64 bits.
- Panics on an invalid `Format` value cannot happen, because the formats are a six-constructor datatype.
- Go error identity: the two errors are an enumeration.
- `strings.Builder` internals: the builder is a byte sequence that grows by appending.
- In-place reslicing is modelled as an offset into the unchanged input.
- Aliasing: the guessed separator aliases the input (`(*b)[:1]`); the model copies that byte. Every later `parseSep` reads it (version.go:135-142), but no code writes the input bytes, so the alias and the copy always hold the same byte.
- The rows of the source's test table at version_test.go:50, 52, 53 and 55 expect `"12,34,56,78"` to fail and `"12, 34, 56, 78"` to succeed under `Any` and `Comma`. They do not match the code (version.go:128-130, version.go:165-166). The model follows the code: `CommaTextUnderAny` and `RoundTrip` give success for the first, and `ComponentMissing` gives a syntax error at offset 3 for the second.
- The test harness itself (`TestParse`, `TestParseString`, `fmtstr`) is not modelled. The table's other rows are covered by the lemmas for every input cited above, not as individual literal cases.
- Rbxver.ScanInt: its own contract states only that the position stays in bounds. What it reads is stated by `ParseProperties.ScanIntOutcome`, `ScanIntOfRun`, `NoDigitRejected` and `OverflowRejected`.
- Rbxver.ScanSep: its own contract states only the position bounds, that a success yields a known non-empty separator and keeps a known one, and that a failure without whitespace skipping consumes nothing. Which byte each separator state accepts, the state that follows and where parsing resumes are stated by `ParseProperties.ScanSepOutcome`, `SpaceNotSkipped` and `SpacesAroundSeparator`.
- Rbxver.Components: its own contract states only that the position stays in bounds. What it computes is stated by the lemmas of `ParseProperties`.
- Rbxver.Parsed: its own contract states only the bound on the count. Its behaviour on each kind of input is stated by the lemmas of `ParseProperties`.

## Findings

| source | as written | input that shows it | evidently intended | confidence | as-written member | corrected member |
|---|---|---|---|---|---|---|
| version.go:84-98 | `Less` returns true as soon as any component of `v` is smaller than the same component of `u` | `Version{2,0,0,0}` and `Version{1,5,0,0}`: each is `Less` than the other | "semantically lower" (version.go:83): lexicographic comparison, an irreflexive, asymmetric, transitive and total order | not executed | VersionOrder.LessNotAsymmetric | Rbxver.Version.LexLess |
