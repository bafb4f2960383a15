# getRGBA, modelled in Dafny

This project models `getRGBA`, the colour-descriptor normaliser of the
repository's `src/util/getRGBA.ts`. `getRGBA` turns a descriptor into a list
of red, green, blue and alpha channels. It tries the descriptor's shapes in
this order:

- a number, which gives a grey;
- a string: either `#` and hex digits, or text holding `rgb(...)` or
  `rgba(...)`;
- an array, which is padded in place;
- an object with `red`, `green`, `blue` and `alpha` properties.

The helpers it relies on are modelled with it:
- `stringToInt`;
- `normalize`;
- `fromHex`;
- `fromString`;
- `fromObject`;
- `defaultColors`.

Modules:

- `JsNumbers` (`js_numbers.dfy`): JavaScript numbers as `Finite(real)` or
  `NaN`, truthiness, `||` on a property that may be absent, `Math.min` and
  `*`.
- `JsText` (`js_text.dfy`): the string built-ins the code calls:
  - `substring`;
  - `replace(/[^0-9]/, '')`;
  - `split` on one character;
  - the match of `/rgb(?:a?)\(([^)]*)\)/`, a leftmost search proved against
    a declarative definition of a match.
- `JsParse` (`js_parse.dfy`): `parseInt` following ECMAScript. It skips
  leading white space, reads an optional sign, drops a `0x` prefix in radix
  16, reads the longest run of digits, and gives NaN when there are none.
  Also here: `Number` on text holding a point, and `toString(radix)`, which
  is used to state the round trip `parseInt(n.toString(r), r) == n`.
- `GetRgba` (`get_rgba.dfy`): the core.
  - `JsArray` is a class whose `items` field is the JavaScript array. `Push`
    appends to it.
  - `Normalize` is a `while` loop of pushes on the caller's array.
  - `FromHex` is the stepping loop that cuts the digits into chunks.
  - `FromObject` is four pushes.
  - `GetRgba` is the dispatch.
  - Each method is proved equal to a function (`Normalized`,
    `HexChannels`, `StringChannels`, `ObjectChannels`, `Expected`), and the
    promised properties are proved about those functions.
- `GetRgbaCases` (`get_rgba_cases.dfy`): concrete descriptors and what
  `getRGBA` makes of them. Examples: `#abc`, `#000000`, `rgb(1,2,3)`,
  `rgba(0,0,0,0.5)`, `[1, 2, 3]`, and `{alpha: 0}`.

Behaviour reproduced as the code writes it:
- `stringToInt` doubles every one-character token. This also applies to
  decimal components, so `rgb(1,2,3)` is `[11, 22, 33, 255]`.
- `fromObject` uses `||`, so an explicit alpha of 0 (or NaN) becomes 255.
- The hex path removes only the first character that is not a decimal
  digit, which is always the `#`.

Failure and edge cases, as the code has them:
- `getRGBA` is declared to return `RGBAColorArray | undefined`, yet an
  unparsable string throws. `fromString` returns `undefined`, the `!` at
  line 18 passes it to `normalize`, and reading `.length` at line 42 throws
  a TypeError. The model's result is `Throws`.
- `null` has `typeof` `'object'`, so it reaches `fromObject`, which throws
  on `.red`. The model's result is `Throws`.
- The hex path checks no digit count. Fewer than six digits give one
  channel per digit, and six or more give one channel per pair, an odd
  last digit included.

## Model

| member | source | states |
|---|---|---|
| GetRgba.DefaultColors | src/util/getRGBA.ts:30 | opaque black, [0, 0, 0, 255]; `ObjectDefaults`, `NumberIsGray` and `Normalized` state where each entry is used |
| GetRgba.JsArray.constructor | src/util/getRGBA.ts:15 | a fresh array literal holds exactly the given entries |
| GetRgba.JsArray.Push | src/util/getRGBA.ts:43 | `push` appends one entry at the end and changes nothing else |
| GetRgba.Normalized | src/util/getRGBA.ts:41-46 | the padded list has length max(4, n), keeps the n original entries in place, and holds `defaultColors[i]` at each new position i |
| GetRgba.Normalize | src/util/getRGBA.ts:41-46 | the loop of pushes leaves the caller's array equal to its old contents padded with the defaults |
| GetRgba.NormalizedIdempotent | src/util/getRGBA.ts:41-46 | a list of four or more entries is left unchanged, so normalizing twice is normalizing once |
| GetRgba.StringToInt | src/util/getRGBA.ts:32-39 | `stringToInt(radix)(str)`; `StringToIntDoubles` and `StringToIntPair` prove what it reads for one and two digits |
| GetRgba.StringToIntDoubles | src/util/getRGBA.ts:32-38 | a one-character digit is read as that digit written twice: radix * d + d (255 for `f` in radix 16, 11 for `1` in radix 10) |
| GetRgba.StringToIntPair | src/util/getRGBA.ts:32-38 | a two-digit token is not doubled and is read as radix * first + second |
| GetRgba.Chunks | src/util/getRGBA.ts:52-55 | the pieces the loop pushes; `ChunksCover`, `ChunksOfOne` and `ChunksOfTwo` prove they rebuild the string at the chunk width |
| GetRgba.ChunksCover | src/util/getRGBA.ts:52-55 | the chunks put back together are the whole string; each has the chunk width, except a shorter, nonempty last one |
| GetRgba.ChunksStep | src/util/getRGBA.ts:53-54 | one pass of the loop takes `substring(i, i + w)`, and the chunks of what follows are the rest |
| GetRgba.ChunksLoopStep | src/util/getRGBA.ts:53-55 | each pass of the loop keeps "chunks pushed so far, then chunks of the rest, are all the chunks" |
| GetRgba.ChunksOfOne | src/util/getRGBA.ts:52-55 | at width 1 the k-th chunk is the k-th character |
| GetRgba.ChunksOfTwo | src/util/getRGBA.ts:52-55 | at width 2 there are (n + 1) / 2 chunks, the k-th is characters 2k and 2k+1, and an odd length leaves the last character alone in the last chunk |
| GetRgba.FromHex | src/util/getRGBA.ts:48-58 | the stepping loop returns the hex channels: first non-decimal character removed, chunks of 2 from six digits on (else 1), each read in radix 16 |
| GetRgba.HexStripsHash | src/util/getRGBA.ts:50 | on a `#` string the replacement removes exactly the `#` |
| GetRgba.HexShortForm | src/util/getRGBA.ts:48-58 | fewer than six hex digits give one channel per digit, worth 17 times the digit (`#abc` is 170, 187, 204; four digits give an explicit alpha) |
| GetRgba.HexChannels | src/util/getRGBA.ts:48-58 | what `fromHex` returns; `HexShortForm` and `HexLongForm` prove its channels for every digit count |
| GetRgba.HexLongForm | src/util/getRGBA.ts:48-58 | six or more hex digits give (n + 1) / 2 channels: one per pair, worth 16 * first + second (eight digits give an explicit alpha), and for an odd count a last channel worth 17 times the lone last digit |
| GetRgba.HexPair | src/util/getRGBA.ts:54-57 | the k-th channel is read from digits 2k and 2k+1 |
| GetRgba.HexLastDigit | src/util/getRGBA.ts:57 | an odd last hex digit is a chunk of its own and is read doubled, as 17 times the digit |
| GetRgba.HexChunkRead | src/util/getRGBA.ts:57 | the k-th channel is `stringToInt(16)` of the k-th chunk |
| GetRgba.ComponentValue | src/util/getRGBA.ts:67-73 | the `map` callback; `DecimalComponentDoubled`, `DecimalComponent` and `FractionComponent` prove its value for each kind of component |
| GetRgba.Components | src/util/getRGBA.ts:67-73 | the group split on commas and mapped; `ThreeComponents` and `FourComponents` prove one channel per piece |
| GetRgba.StringChannels | src/util/getRGBA.ts:60-76 | what `fromString` returns; `StringThrows` proves it is `undefined` exactly when there is neither a `#` nor a match, and `ReadsGroup` that a match is read from its group |
| GetRgba.FromString | src/util/getRGBA.ts:60-76 | a `#` string goes to the hex path; otherwise the regex match's group, split on commas and converted, or `undefined` when there is no match |
| GetRgba.DecimalComponentDoubled | src/util/getRGBA.ts:68-69 | a component that is one decimal digit d reads as 11 * d |
| GetRgba.DecimalComponent | src/util/getRGBA.ts:68-69 | a component of two or more decimal digits reads as the number it writes |
| GetRgba.FractionComponent | src/util/getRGBA.ts:70-71 | a component with a point is NaN exactly when `Number` gives NaN; otherwise it is min(255, 256 v), never above 255 |
| GetRgba.ObjectChannels | src/util/getRGBA.ts:78-87 | what `fromObject` returns; `ObjectDefaults` proves four channels, each the property or its default |
| GetRgba.FromObject | src/util/getRGBA.ts:78-87 | the four pushes return red, green, blue and alpha, each `||` its default |
| GetRgba.ObjectDefaults | src/util/getRGBA.ts:78-87 | always four channels; an absent, 0 or NaN property gives its default (0, 0, 0, 255), and any other value is kept |
| GetRgba.Expected | src/util/getRGBA.ts:11-26 | every successful result has at least four channels; the result is `undefined` exactly for a descriptor of no recognised shape |
| GetRgba.GetRgba | src/util/getRGBA.ts:11-26 | the dispatch succeeds or throws exactly as specified; on success it returns the specified channels; the array path returns the caller's own array, and every other path a fresh one |
| GetRgba.NumberIsGray | src/util/getRGBA.ts:14-15 | a number n gives exactly [n, n, n, 255] |
| GetRgba.ArrayKeepsEntries | src/util/getRGBA.ts:20-21 | an array keeps its entries in place and gains only defaults, up to length max(4, n) |
| GetRgba.ResultIsFixedPoint | src/util/getRGBA.ts:41-46 | any successful result, fed back in as an array, gives itself again |
| GetRgba.StringThrows | src/util/getRGBA.ts:17-18 | a string throws exactly when it does not start with `#` and no index starts an `rgb(`/`rgba(` ... `)` match |
| GetRgba.NullThrowsOtherUndefined | src/util/getRGBA.ts:23-26 | `null` throws, and a shape that is none of number, string, array or object gives `undefined` |
| JsNumbers.OrElse | src/util/getRGBA.ts:81-84 | `x || d` keeps a present, truthy x and otherwise gives d |
| JsNumbers.Min | src/util/getRGBA.ts:71 | `Math.min` is NaN exactly when an argument is NaN; otherwise it is the smaller argument |
| JsNumbers.Times | src/util/getRGBA.ts:71 | `*` is NaN exactly when a factor is NaN; otherwise it is the product |
| JsText.DigitValue | src/util/getRGBA.ts:37 | a character's digit value is at most 36; `DigitValueChar` proves which characters are digits of which value |
| JsText.DigitChar | src/util/getRGBA.ts:37 | the digit written for d has value d |
| JsText.Substring | src/util/getRGBA.ts:54 | `substring(i, j)` is the slice when it lies inside the string, and runs to the end when j passes it |
| JsText.IndexOf | src/util/getRGBA.ts:64 | the index found holds the character, and no earlier index does |
| JsText.IndexOfAfter | src/util/getRGBA.ts:64 | the first `)` after text without one is the one right after that text |
| JsText.DigitValueChar | src/util/getRGBA.ts:37 | the digits of radix 36 are exactly `0`-`9`, `a`-`z` and `A`-`Z`, both cases with values 10-35 (a digit's value written back is the digit in lower case); the decimal digits are exactly `0`-`9`; any other character has value 36 |
| JsText.FirstNonDigit | src/util/getRGBA.ts:50 | everything before the index is a decimal digit, and the character at it is not |
| JsText.ReplaceFirstNonDigit | src/util/getRGBA.ts:50 | `replace(/[^0-9]/, '')`; `ReplaceFirstNonDigitRemoves` proves it removes exactly the first non-decimal character |
| JsText.ReplaceFirstNonDigitRemoves | src/util/getRGBA.ts:50 | the replacement removes exactly the first non-decimal character, and nothing when there is none |
| JsText.Split | src/util/getRGBA.ts:67 | split gives at least one piece, no piece holds the separator, and joining the pieces gives the string back |
| JsText.SplitJoin | src/util/getRGBA.ts:67 | splitting a join of separator-free pieces gives the pieces back |
| JsText.MatchesAt | src/util/getRGBA.ts:64 | the declarative match at an index: `rgb(` or `rgba(`, a group without `)`, then `)`; the reference the search is proved against |
| JsText.MatchAt | src/util/getRGBA.ts:64 | the attempt at one index; `MatchAtIff` proves it finds g exactly when `MatchesAt` holds |
| JsText.RgbMatch | src/util/getRGBA.ts:64-65 | the non-global `match`; `RgbMatchCorrect` proves it gives the leftmost match's group, and nothing exactly when there is no match |
| JsText.GroupAfter | src/util/getRGBA.ts:64 | after the opener, the text up to the first `)` is the group |
| JsText.GroupBefore | src/util/getRGBA.ts:64 | the text up to the first `)` holds no `)` and is followed by one |
| JsText.MatchesAtThenMatchAt | src/util/getRGBA.ts:64 | a match at index i is the one the attempt at i finds |
| JsText.MatchAtThenMatchesAt | src/util/getRGBA.ts:64 | what the attempt at index i finds is a match at i |
| JsText.MatchAtIff | src/util/getRGBA.ts:64 | the attempt at index i finds g exactly when a match with group g starts at i |
| JsText.RgbMatchFromSound | src/util/getRGBA.ts:64 | a group found from index i0 belongs to a match with no earlier match from i0 |
| JsText.RgbMatchFromComplete | src/util/getRGBA.ts:64 | when a match starts at or after i0, the search from i0 finds one |
| JsText.RgbMatchCorrect | src/util/getRGBA.ts:64-65 | the group found is that of the leftmost match, and there is none exactly when no index starts a match |
| JsParse.TrimStart | src/util/getRGBA.ts:37 | the result is no longer than the input and does not start with white space |
| JsParse.TrimEnd | src/util/getRGBA.ts:71 | the result is no longer than the input and does not end with white space |
| JsParse.TrimStartDropsWhiteSpace | src/util/getRGBA.ts:37 | trimming the start drops only white space and keeps the rest as it was |
| JsParse.TrimEndDropsWhiteSpace | src/util/getRGBA.ts:71 | trimming the end drops only white space and keeps the rest as it was |
| JsParse.DigitRun | src/util/getRGBA.ts:37 | the run is all digits of the radix, and the character after it is not one |
| JsParse.DigitRunOf | src/util/getRGBA.ts:37 | digits followed by a non-digit form a run of exactly those digits |
| JsParse.DigitsValuePair | src/util/getRGBA.ts:37 | two digits are worth radix * first + second |
| JsParse.FormatDigits | src/util/getRGBA.ts:37 | `n.toString(radix)` is nonempty, is made of digits of the radix, and is worth n |
| JsParse.ParseIntTrimmed | src/util/getRGBA.ts:37 | `parseInt` after the white space; the lemmas below prove its sign, `0x` and digit-run handling |
| JsParse.ParseInt | src/util/getRGBA.ts:37 | `parseInt(s, radix)`; the lemmas below prove it inverts `toString(radix)`, skips white space, stops at the first non-digit, drops `0x` in radix 16 and negates after `-` |
| JsParse.DigitsThen | src/util/getRGBA.ts:37 | `parseInt` of digits followed by a non-digit gives the digits' value |
| JsParse.ParseIntDigits | src/util/getRGBA.ts:37 | `parseInt` of a string of digits gives its value |
| JsParse.ParseIntFormat | src/util/getRGBA.ts:37 | `parseInt(n.toString(r), r)` is n |
| JsParse.ParseIntSkipsWhiteSpace | src/util/getRGBA.ts:37 | leading white space does not change what `parseInt` reads |
| JsParse.ParseIntStopsAtNonDigit | src/util/getRGBA.ts:37 | `parseInt` ignores everything from the first non-digit on |
| JsParse.ParseIntHexPrefix | src/util/getRGBA.ts:57 | in radix 16 a `0x` prefix is dropped, and `0x` alone is NaN |
| JsParse.ParseIntNegative | src/util/getRGBA.ts:37 | a leading minus negates the value |
| JsParse.Scale | src/util/getRGBA.ts:71 | scaling by a power of ten keeps a positive value positive and zero zero; `ScaleStep` proves it is x * 10^e |
| JsParse.ScaleStep | src/util/getRGBA.ts:71 | `Scale(x, 0)` is x and each further power is one more factor of ten, so `Scale(x, e)` is x * 10^e |
| JsParse.Exponent | src/util/getRGBA.ts:71 | the optional exponent part of the literal `Number` reads |
| JsParse.PointLiteral | src/util/getRGBA.ts:71 | an unsigned decimal literal with a point; `PointLiteralDecimal` proves digits, a point and digits are worth their decimal value |
| JsParse.StringToNumber | src/util/getRGBA.ts:71 | `Number(value)` for text with a point; `StringToNumberDecimal` proves its value, and `FractionComponent` the bound that the code puts on it |
| JsParse.PointLiteralDecimal | src/util/getRGBA.ts:71 | digits, a point and digits form a literal worth their decimal value |
| JsParse.StringToNumberDecimal | src/util/getRGBA.ts:71 | `Number` of digits, a point and digits is their decimal value |
| GetRgbaCases.HexThree | src/util/getRGBA.ts:48-62 | `#` and three hex digits give 17 times each digit and an opaque alpha |
| GetRgbaCases.PaddedHex | src/util/getRGBA.ts:17-18 | a `#` string read as three channels gains an opaque alpha |
| GetRgbaCases.PaddedThree | src/util/getRGBA.ts:17-18 | a string read as three channels gains an opaque alpha |
| GetRgbaCases.HexSixChannels | src/util/getRGBA.ts:48-58 | six hex digits give three channels, one per pair |
| GetRgbaCases.HexSix | src/util/getRGBA.ts:48-62 | `#` and six hex digits give one channel per pair and an opaque alpha |
| GetRgbaCases.HexSevenChannels | src/util/getRGBA.ts:48-58 | seven hex digits give three channels from pairs and a fourth from the last digit, doubled |
| GetRgbaCases.UnpaddedHex | src/util/getRGBA.ts:41-46 | a `#` string read as four or more channels is returned without padding |
| GetRgbaCases.HexSevenDigits | src/util/getRGBA.ts:48-58 | `#1234567` is [18, 52, 86, 119]: the odd last digit `7` is read as `77` and serves as alpha |
| GetRgbaCases.HexShortWhite | src/util/getRGBA.ts:32-38 | `#fff` is [255, 255, 255, 255] |
| GetRgbaCases.HexShortAbc | src/util/getRGBA.ts:32-38 | `#abc` is [170, 187, 204, 255] |
| GetRgbaCases.HexLongBlack | src/util/getRGBA.ts:48-58 | `#000000` is [0, 0, 0, 255] |
| GetRgbaCases.HexLongWhite | src/util/getRGBA.ts:48-58 | `#ffffff` is [255, 255, 255, 255] |
| GetRgbaCases.RgbAtStart | src/util/getRGBA.ts:64 | `rgb(g)` at the start matches with group g |
| GetRgbaCases.RgbaAtStart | src/util/getRGBA.ts:64 | `rgba(g)` at the start matches with group g |
| GetRgbaCases.ReadsGroup | src/util/getRGBA.ts:63-67 | a string that is not hex and holds a match is read from the match's group |
| GetRgbaCases.ThreeComponents | src/util/getRGBA.ts:67 | three comma-separated pieces give three components |
| GetRgbaCases.FourComponents | src/util/getRGBA.ts:67 | four comma-separated pieces give four components |
| GetRgbaCases.RgbThree | src/util/getRGBA.ts:60-73 | `rgb(x,y,w)` gives one channel per component and an opaque alpha |
| GetRgbaCases.RgbaFour | src/util/getRGBA.ts:60-73 | `rgba(x,y,w,v)` gives the four components as they are |
| GetRgbaCases.TwoDigitComponent | src/util/getRGBA.ts:68-69 | a two-digit component is read as written |
| GetRgbaCases.SpacedDigitComponent | src/util/getRGBA.ts:68-69 | a space then one digit is two characters, so it is not doubled, and the space is skipped |
| GetRgbaCases.OneDigitValue | src/util/getRGBA.ts:37 | one decimal digit is worth its digit value |
| GetRgbaCases.OneDigitDecimal | src/util/getRGBA.ts:71 | `a.b` is worth (10a + b) / 10 |
| GetRgbaCases.RgbDecimal | src/util/getRGBA.ts:64-69 | `rgb(10,20,30)` is [10, 20, 30, 255] |
| GetRgbaCases.RgbTens | src/util/getRGBA.ts:64-69 | three two-digit multiples of ten are read as written |
| GetRgbaCases.RgbSingleDigits | src/util/getRGBA.ts:34-36 | `rgb(1,2,3)` is [11, 22, 33, 255]: one-digit components are doubled |
| GetRgbaCases.RgbSpacedDigits | src/util/getRGBA.ts:34-36 | `rgb(1, 2, 3)` is [11, 2, 3, 255]: only the unspaced component is doubled |
| GetRgbaCases.RgbaHalfAlpha | src/util/getRGBA.ts:70-71 | `rgba(0,0,0,0.5)` is [0, 0, 0, 128] |
| GetRgbaCases.FractionBelowOne | src/util/getRGBA.ts:71 | a component `0.b` is 25.6 * b |
| GetRgbaCases.NoParenThrows | src/util/getRGBA.ts:17-18 | a string with no `#` at the start and no `(` anywhere throws |
| GetRgbaCases.MatchHasParen | src/util/getRGBA.ts:64 | every match holds a `(` |
| GetRgbaCases.NotAColorThrows | src/util/getRGBA.ts:17-18 | `not-a-color` throws rather than giving `undefined` |
| GetRgbaCases.EmptyStringThrows | src/util/getRGBA.ts:17-18 | the empty string throws |
| GetRgbaCases.PadThreeEntries | src/util/getRGBA.ts:20-21 | `[1, 2, 3]` becomes [1, 2, 3, 255] in place, and the caller's own array is returned |
| GetRgbaCases.KeepFourEntries | src/util/getRGBA.ts:20-21 | `[1, 2, 3, 4]` comes back unchanged, as the same array |
| GetRgbaCases.ObjectMissingAlpha | src/util/getRGBA.ts:81-84 | `{red: 10, green: 20, blue: 30}` is [10, 20, 30, 255] |
| GetRgbaCases.ObjectZeroAlpha | src/util/getRGBA.ts:81-84 | an explicit alpha of 0 becomes 255 |
| GetRgbaCases.ObjectNaNRed | src/util/getRGBA.ts:81-84 | a NaN red becomes 0 |
| GetRgbaCases.TensComponent | src/util/getRGBA.ts:68-69 | `d0` is read as 10 * d |

## Left out

- Floating point: numbers are exact reals plus NaN. Rounding, `Infinity`,
  `-0` and the loss of precision in large `parseInt` results are not
  modelled.
- `Number(value)` is modelled only for text holding a point, which is the
  only text the code gives it. It covers the decimal literal with an
  optional exponent and surrounding white space. `Infinity`, hex and binary
  literals never hold a point, and the empty-string case cannot occur.
- Property values of an object that are not numbers are not modelled. The
  interfaces declare them as numbers.
- Only this one pattern of the regular-expression engine is modelled, not
  the engine in general.
- The types imported from `../interfaces` are not part of this model. Arrays
  and channel lists are `seq<JsNumber>`, and the colour object is a datatype
  of optional numbers.
- `Gruntfile.js` and `src/typings/pngjs.d.ts` are not part of this model.
  They hold build tasks and ambient type declarations.
- The TypeScript casts (`<number[]>`, `<RGBAColorArray>`, `!`) have no
  effect at run time and are not modelled.
- GetRgba.HexChannels, GetRgba.FromHex: characters outside the Basic
  Multilingual Plane count once here and twice in the code, which counts
  UTF-16 code units in `length` and `substring`. So a `#` string holding
  one can get a different number of channels: `#1😀` is three channels
  [17, NaN, NaN] in the code and two here.
- GetRgba.FromObject builds its result as a local sequence rather than a
  `JsArray`, because the list is fresh and never shared. `GetRgba.GetRgba`
  then wraps it in a fresh array.
- JsParse.TrimStart, JsParse.TrimEnd: their own contracts state only the
  length and the missing white space. That the kept text is an unchanged
  slice is proved separately by `TrimStartDropsWhiteSpace` and
  `TrimEndDropsWhiteSpace`.
