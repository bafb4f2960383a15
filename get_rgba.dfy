/**
 * getRGBA: turns a colour descriptor (a grey level, a `#hex` or an
 * `rgb(...)`/`rgba(...)` string, an array of channels, or an object with
 * `red`/`green`/`blue`/`alpha`) into a list of red, green, blue and alpha
 * channels.
 */
module GetRgba {
  import opened JsNumbers
  import opened JsText
  import opened JsParse

  /** `defaultColors`: the channel used where a descriptor gives none (opaque black). */
  const DefaultColors: seq<JsNumber> := [Finite(0.0), Finite(0.0), Finite(0.0), Finite(255.0)]

  /** A JavaScript array of numbers, grown in place by `push`. */
  class JsArray {
    var items: seq<JsNumber>

    constructor (items: seq<JsNumber>)
      ensures this.items == items
    {
      this.items := items;
    }

    method Push(x: JsNumber)
      modifies this
      ensures items == old(items) + [x]
    {
      items := items + [x];
    }
  }

  /** An object with optional `red`, `green`, `blue` and `alpha` properties (None: the property is absent). */
  datatype ColorObject = ColorObject(red: Option<JsNumber>, green: Option<JsNumber>, blue: Option<JsNumber>, alpha: Option<JsNumber>)

  /** The value passed to getRGBA, by the runtime shape that its tests see, in the order they are tried. */
  datatype Descriptor =
    | Num(n: JsNumber)          // typeof color === 'number'
    | Str(s: string)            // typeof color === 'string'
    | Arr(list: JsArray)        // Array.isArray(color): the caller's own array
    | Obj(fields: ColorObject)  // typeof color === 'object'
    | Null                      // null, whose typeof is 'object' as well
    | Other                     // a boolean, undefined, a function, ...
  {
    function Footprint(): set<object> {
      if Arr? then {list} else {}
    }
  }

  /** How a call of getRGBA ends: it returns a value, it returns `undefined`, or it throws a TypeError. */
  datatype Result<T> = Ok(value: T) | Undefined | Throws

  // ---- normalize ----

  /** `normalize` on the list `c`: the default channel appended at each position below 4 that `c` lacks. */
  function Normalized(c: seq<JsNumber>): (r: seq<JsNumber>)
    ensures |r| == if |c| >= 4 then |c| else 4
    ensures r[..|c|] == c
    ensures forall i :: |c| <= i < |r| ==> r[i] == DefaultColors[i]
    decreases 4 - |c|
  {
    if |c| >= 4 then c else Normalized(c + [DefaultColors[|c|]])
  }

  /** `normalize(color)`: pads the caller's array in place with a loop of `push` calls. */
  method Normalize(color: JsArray)
    modifies color
    ensures color.items == Normalized(old(color.items))
  {
    while |color.items| < 4
      invariant Normalized(color.items) == Normalized(old(color.items))
      decreases 4 - |color.items|
    {
      color.Push(DefaultColors[|color.items|]);
    }
  }

  /** A list of at least four channels is left as it is; so normalizing twice is normalizing once. */
  lemma NormalizedIdempotent(c: seq<JsNumber>)
    ensures |c| >= 4 ==> Normalized(c) == c
    ensures Normalized(Normalized(c)) == Normalized(c)
  {
    var r := Normalized(c);
    assert r[..|r|] == r;
  }

  // ---- stringToInt ----

  /** `stringToInt(radix)(str)`: a one-character string is doubled before `parseInt` reads it. */
  function StringToInt(str: string, radix: nat): JsNumber
    requires 2 <= radix <= 36
  {
    ParseInt(if |str| == 1 then str + str else str, radix)
  }

  /** A single digit is read twice over: `f` is 15 * 16 + 15 = 255 in radix 16, and `1` is 11 in radix 10. */
  lemma StringToIntDoubles(c: char, radix: nat)
    requires 2 <= radix <= 36 && IsDigit(c, radix)
    ensures StringToInt([c], radix) == Finite((radix * DigitValue(c) + DigitValue(c)) as real)
  {
    assert [c] + [c] == [c, c];
    StringToIntPair(c, c, radix);
  }

  /** Two digits are read as a two-digit number. */
  lemma StringToIntPair(a: char, b: char, radix: nat)
    requires 2 <= radix <= 36 && IsDigit(a, radix) && IsDigit(b, radix)
    ensures StringToInt([a, b], radix) == Finite((radix * DigitValue(a) + DigitValue(b)) as real)
  {
    ParseIntDigits([a, b], radix);
    DigitsValuePair(a, b, radix);
  }

  /** `rgb.map(stringToInt(radix))`. */
  function ToInts(parts: seq<string>, radix: nat): seq<JsNumber>
    requires 2 <= radix <= 36
  {
    seq(|parts|, k requires 0 <= k < |parts| => StringToInt(parts[k], radix))
  }

  // ---- fromHex ----

  /** The pieces joined back together. */
  function Concat(parts: seq<string>): string {
    if parts == [] then [] else parts[0] + Concat(parts[1..])
  }

  /** `s` cut into pieces of `w` characters, the last one possibly shorter. */
  function Chunks(s: string, w: nat): seq<string>
    requires w >= 1
    decreases |s|
  {
    if s == [] then []
    else if |s| <= w then [s]
    else [s[..w]] + Chunks(s[w..], w)
  }

  /** The chunks put back together are `s`; every chunk has `w` characters except a shorter, nonempty last one. */
  lemma {:induction false} ChunksCover(s: string, w: nat)
    requires w >= 1
    ensures Concat(Chunks(s, w)) == s
    ensures forall k :: 0 <= k < |Chunks(s, w)| ==> 0 < |Chunks(s, w)[k]| <= w
    ensures forall k :: 0 <= k < |Chunks(s, w)| - 1 ==> |Chunks(s, w)[k]| == w
    decreases |s|
  {
    if |s| > w {
      ChunksCover(s[w..], w);
      var r := Chunks(s, w);
      assert r[1..] == Chunks(s[w..], w);
      assert s == s[..w] + s[w..];
    }
  }

  /** One step of the chunking loop: the piece `substring(i, i + w)`, then the chunks of what follows it. */
  lemma ChunksStep(s: string, i: nat, w: nat)
    requires w >= 1 && i < |s|
    ensures i + w <= |s| ==> Chunks(s[i..], w) == [Substring(s, i, i + w)] + Chunks(s[i + w..], w)
    ensures i + w > |s| ==> Chunks(s[i..], w) == [Substring(s, i, i + w)]
  {
    var t := s[i..];
    if |t| > w {
      assert t[..w] == s[i..i + w];
      assert t[w..] == s[i + w..];
    } else if i + w == |s| {
      assert s[i + w..] == [];
    }
  }

  /** The chunking loop keeps its invariant: pieces so far, then the chunks of the rest, are all the chunks. */
  lemma ChunksLoopStep(s: string, i: nat, w: nat, done: seq<string>)
    requires w >= 1 && i < |s|
    requires done + Chunks(s[i..], w) == Chunks(s, w)
    ensures i + w <= |s| ==> done + [Substring(s, i, i + w)] + Chunks(s[i + w..], w) == Chunks(s, w)
    ensures i + w > |s| ==> done + [Substring(s, i, i + w)] == Chunks(s, w)
  {
    ChunksStep(s, i, w);
    var piece := Substring(s, i, i + w);
    if i + w <= |s| {
      var rest := Chunks(s[i + w..], w);
      assert done + [piece] + rest == done + ([piece] + rest);
    }
  }

  /** Single characters, when the width is 1. */
  lemma {:induction false} ChunksOfOne(s: string)
    ensures |Chunks(s, 1)| == |s|
    ensures forall k :: 0 <= k < |s| ==> Chunks(s, 1)[k] == [s[k]]
    decreases |s|
  {
    if |s| > 1 {
      ChunksOfOne(s[1..]);
      assert Chunks(s, 1) == [s[..1]] + Chunks(s[1..], 1);
    } else if |s| == 1 {
      assert s[..1] == s;
    }
  }

  /** Pairs of characters at width 2; an odd length leaves the last character alone in the last chunk. */
  lemma {:induction false} ChunksOfTwo(s: string)
    ensures |Chunks(s, 2)| == (|s| + 1) / 2
    ensures forall k :: 0 <= k < |s| / 2 ==> Chunks(s, 2)[k] == s[2 * k..2 * k + 2]
    ensures |s| % 2 == 1 ==> Chunks(s, 2)[|s| / 2] == [s[|s| - 1]]
    decreases |s|
  {
    if |s| > 2 {
      var t := s[2..];
      ChunksOfTwo(t);
      var r := Chunks(s, 2);
      assert r == [s[..2]] + Chunks(t, 2);
      forall k | 1 <= k < |s| / 2 ensures r[k] == s[2 * k..2 * k + 2] {
        assert r[k] == Chunks(t, 2)[k - 1] == t[2 * (k - 1)..2 * (k - 1) + 2];
      }
      if |s| % 2 == 1 {
        assert r[|s| / 2] == Chunks(t, 2)[|t| / 2] == [t[|t| - 1]];
      }
    } else if |s| == 2 {
      assert s[..2] == s;
    }
  }

  /** Two hex digits per channel from 6 digits on, one before. */
  function HexWidth(digits: string): nat {
    if |digits| >= 6 then 2 else 1
  }

  /** What `fromHex(color)` returns: the first non-decimal character removed, then chunks read in radix 16. */
  function HexChannels(color: string): seq<JsNumber> {
    var cleaned := ReplaceFirstNonDigit(color);
    ToInts(Chunks(cleaned, HexWidth(cleaned)), 16)
  }

  /** `fromHex(color)`: strips one character, then cuts the rest into chunks with a stepping loop. */
  method FromHex(color: string) returns (channels: seq<JsNumber>)
    ensures channels == HexChannels(color)
  {
    var rgb: seq<string> := [];
    var cleaned := ReplaceFirstNonDigit(color);
    var digits := if |cleaned| >= 6 then 2 else 1;
    var i := 0;
    while i < |cleaned|
      invariant 0 <= i <= |cleaned| + 1
      invariant i <= |cleaned| ==> rgb + Chunks(cleaned[i..], digits) == Chunks(cleaned, digits)
      invariant i > |cleaned| ==> rgb == Chunks(cleaned, digits)
    {
      ChunksLoopStep(cleaned, i, digits, rgb);
      rgb := rgb + [Substring(cleaned, i, i + digits)];
      i := i + digits;
    }
    if i == |cleaned| {
      assert cleaned[i..] == [];
      assert rgb + [] == rgb;
    }
    channels := ToInts(rgb, 16);
  }

  /** The `#` is the character the hex path strips: the digits after it are what gets chunked. */
  lemma HexStripsHash(z: string)
    ensures ReplaceFirstNonDigit("#" + z) == z
  {
    var s := "#" + z;
    assert !IsDigit(s[0], 10);
    assert s[1..] == z;
  }

  /** Fewer than six hex digits: one channel per digit, each digit doubled (`#abc` is 170, 187, 204). */
  lemma HexShortForm(z: string)
    requires AllDigits(z, 16) && |z| < 6
    ensures |HexChannels("#" + z)| == |z|
    ensures forall k :: 0 <= k < |z| ==> HexChannels("#" + z)[k] == Finite((17 * DigitValue(z[k])) as real)
  {
    HexStripsHash(z);
    ChunksOfOne(z);
    forall k | 0 <= k < |z| ensures HexChannels("#" + z)[k] == Finite((17 * DigitValue(z[k])) as real) {
      StringToIntDoubles(z[k], 16);
    }
  }

  /**
   * Six or more hex digits: one channel per pair, and, when the count is odd,
   * a last channel from the lone last digit, doubled (`#1234567` ends in 0x77).
   */
  lemma HexLongForm(z: string)
    requires AllDigits(z, 16) && |z| >= 6
    ensures |HexChannels("#" + z)| == (|z| + 1) / 2
    ensures forall k :: 0 <= k < |z| / 2 ==>
      HexChannels("#" + z)[k] == Finite((16 * DigitValue(z[2 * k]) + DigitValue(z[2 * k + 1])) as real)
    ensures |z| % 2 == 1 ==> HexChannels("#" + z)[|z| / 2] == Finite((17 * DigitValue(z[|z| - 1])) as real)
  {
    HexStripsHash(z);
    ChunksOfTwo(z);
    forall k | 0 <= k < |z| / 2
      ensures HexChannels("#" + z)[k] == Finite((16 * DigitValue(z[2 * k]) + DigitValue(z[2 * k + 1])) as real)
    {
      HexPair(z, k);
    }
    if |z| % 2 == 1 {
      HexLastDigit(z);
    }
  }

  lemma HexPair(z: string, k: nat)
    requires AllDigits(z, 16) && |z| >= 6 && k < |z| / 2
    requires ReplaceFirstNonDigit("#" + z) == z
    requires |Chunks(z, 2)| == (|z| + 1) / 2 && Chunks(z, 2)[k] == z[2 * k..2 * k + 2]
    ensures HexChannels("#" + z)[k] == Finite((16 * DigitValue(z[2 * k]) + DigitValue(z[2 * k + 1])) as real)
  {
    HexChunkRead(z, k);
    assert IsDigit(z[2 * k], 16) && IsDigit(z[2 * k + 1], 16);
    StringToIntPair(z[2 * k], z[2 * k + 1], 16);
  }

  lemma HexChunkRead(z: string, k: nat)
    requires |z| >= 6 && k < |z| / 2
    requires ReplaceFirstNonDigit("#" + z) == z
    requires |Chunks(z, 2)| == (|z| + 1) / 2 && Chunks(z, 2)[k] == z[2 * k..2 * k + 2]
    ensures HexChannels("#" + z)[k] == StringToInt([z[2 * k], z[2 * k + 1]], 16)
  {
    assert HexChannels("#" + z) == ToInts(Chunks(z, 2), 16);
    assert z[2 * k..2 * k + 2] == [z[2 * k], z[2 * k + 1]];
  }

  /** An odd last hex digit is a chunk of its own, read doubled. */
  lemma HexLastDigit(z: string)
    requires AllDigits(z, 16) && |z| >= 6 && |z| % 2 == 1
    requires ReplaceFirstNonDigit("#" + z) == z
    requires |Chunks(z, 2)| == (|z| + 1) / 2 && Chunks(z, 2)[|z| / 2] == [z[|z| - 1]]
    ensures HexChannels("#" + z)[|z| / 2] == Finite((17 * DigitValue(z[|z| - 1])) as real)
  {
    assert HexChannels("#" + z) == ToInts(Chunks(z, 2), 16);
    assert IsDigit(z[|z| - 1], 16);
    StringToIntDoubles(z[|z| - 1], 16);
  }

  // ---- fromString ----

  /** One comma-separated component: read in radix 10 without a point, `min(255, 256 * Number(value))` with one. */
  function ComponentValue(value: string): JsNumber {
    if '.' !in value then StringToInt(value, 10)
    else Min(Finite(255.0), Times(Finite(256.0), StringToNumber(value)))
  }

  /** The captured group split on commas, each piece converted. */
  function Components(group: string): seq<JsNumber> {
    var parts := Split(group, ',');
    seq(|parts|, k requires 0 <= k < |parts| => ComponentValue(parts[k]))
  }

  /** What `fromString(color)` returns; None stands for `undefined`. */
  function StringChannels(color: string): Option<seq<JsNumber>> {
    if color != [] && color[0] == '#' then Some(HexChannels(color))
    else
      match RgbMatch(color)
      case None => None
      case Some(group) => Some(Components(group))
  }

  /**
   * `fromString(color)`: `#` selects the hex path, otherwise the `rgb(`/`rgba(` match.
   * A method because the hex path calls the `FromHex` loop; `StringChannels` is its specification.
   */
  method FromString(color: string) returns (channels: Option<seq<JsNumber>>)
    ensures channels == StringChannels(color)
  {
    if color != [] && color[0] == '#' {
      var rgb := FromHex(color);
      channels := Some(rgb);
    } else {
      // A successful match always has length 2: the whole match and the one group.
      match RgbMatch(color)
      case None =>
        channels := None;
      case Some(group) =>
        channels := Some(Components(group));
    }
  }

  /** A component without a point that is one decimal digit is read doubled: `1` gives 11. */
  lemma DecimalComponentDoubled(c: char)
    requires IsDigit(c, 10)
    ensures ComponentValue([c]) == Finite((11 * DigitValue(c)) as real)
  {
    StringToIntDoubles(c, 10);
  }

  /** A component of two or more decimal digits is read as written. */
  lemma DecimalComponent(z: string)
    requires |z| >= 2 && AllDigits(z, 10)
    ensures ComponentValue(z) == Finite(DigitsValue(z, 10) as real)
  {
    assert z[0] != '.';
    ParseIntDigits(z, 10);
  }

  /** A component with a point is never above 255, and is 256 times its value up to that bound. */
  lemma FractionComponent(value: string)
    requires '.' in value
    ensures ComponentValue(value).Finite? <==> StringToNumber(value).Finite?
    ensures ComponentValue(value).Finite? ==> ComponentValue(value).value <= 255.0
    ensures ComponentValue(value).Finite? ==>
      ComponentValue(value).value == if 256.0 * StringToNumber(value).value <= 255.0 then 256.0 * StringToNumber(value).value else 255.0
  {
  }

  // ---- fromObject ----

  /** What `fromObject(color)` returns: each property `||` its default. */
  function ObjectChannels(color: ColorObject): seq<JsNumber> {
    [ OrElse(color.red, DefaultColors[0]), OrElse(color.green, DefaultColors[1]),
      OrElse(color.blue, DefaultColors[2]), OrElse(color.alpha, DefaultColors[3]) ]
  }

  /** `fromObject(color)`: four pushes onto a fresh list. */
  method FromObject(color: ColorObject) returns (rgba: seq<JsNumber>)
    ensures rgba == ObjectChannels(color)
  {
    rgba := [];
    rgba := rgba + [OrElse(color.red, DefaultColors[0])];
    rgba := rgba + [OrElse(color.green, DefaultColors[1])];
    rgba := rgba + [OrElse(color.blue, DefaultColors[2])];
    rgba := rgba + [OrElse(color.alpha, DefaultColors[3])];
  }

  /**
   * Four channels always; a property that is absent, 0 or NaN gives the
   * default (0 for red, green and blue, 255 for alpha), any other is kept.
   */
  lemma ObjectDefaults(color: ColorObject)
    ensures |ObjectChannels(color)| == 4
    ensures color.red.None? || IsFalsy(color.red.value) ==> ObjectChannels(color)[0] == Finite(0.0)
    ensures color.green.None? || IsFalsy(color.green.value) ==> ObjectChannels(color)[1] == Finite(0.0)
    ensures color.blue.None? || IsFalsy(color.blue.value) ==> ObjectChannels(color)[2] == Finite(0.0)
    ensures color.alpha.None? || IsFalsy(color.alpha.value) ==> ObjectChannels(color)[3] == Finite(255.0)
    ensures color.red.Some? && !IsFalsy(color.red.value) ==> ObjectChannels(color)[0] == color.red.value
    ensures color.green.Some? && !IsFalsy(color.green.value) ==> ObjectChannels(color)[1] == color.green.value
    ensures color.blue.Some? && !IsFalsy(color.blue.value) ==> ObjectChannels(color)[2] == color.blue.value
    ensures color.alpha.Some? && !IsFalsy(color.alpha.value) ==> ObjectChannels(color)[3] == color.alpha.value
  {
  }

  // ---- getRGBA ----

  /** What `getRGBA(color)` comes to, the array's contents taken in the state before the call. */
  function Expected(color: Descriptor): (r: Result<seq<JsNumber>>)
    reads color.Footprint()
    ensures r.Ok? ==> |r.value| >= 4
    ensures r.Undefined? <==> color.Other?
  {
    match color
    case Num(n) => Ok([n, n, n, DefaultColors[3]])
    case Str(s) =>
      (match StringChannels(s)
       case None => Throws
       case Some(c) => Ok(Normalized(c)))
    case Arr(a) => Ok(Normalized(a.items))
    case Obj(o) => Ok(ObjectChannels(o))
    case Null => Throws
    case Other => Undefined
  }

  /**
   * `getRGBA(color)`. The array path pads the caller's own array and returns
   * it; every other successful path returns a fresh array.
   */
  method GetRgba(color: Descriptor) returns (r: Result<JsArray>)
    modifies color.Footprint()
    ensures r.Ok? <==> old(Expected(color)).Ok?
    ensures r.Throws? <==> old(Expected(color)).Throws?
    ensures r.Ok? ==> r.value.items == old(Expected(color)).value
    ensures color.Arr? ==> r == Ok(color.list)
    ensures r.Ok? && !color.Arr? ==> fresh(r.value)
  {
    match color
    case Num(n) =>
      var a := new JsArray([n, n, n, DefaultColors[3]]);
      r := Ok(a);
    case Str(s) =>
      var c := FromString(s);
      if c.None? {
        // `normalize(undefined)` reads `.length` of undefined.
        r := Throws;
      } else {
        var a := new JsArray(c.value);
        Normalize(a);
        r := Ok(a);
      }
    case Arr(a) =>
      Normalize(a);
      r := Ok(a);
    case Obj(o) =>
      var c := FromObject(o);
      var a := new JsArray(c);
      r := Ok(a);
    case Null =>
      // `fromObject(null)` reads `.red` of null.
      r := Throws;
    case Other =>
      r := Undefined;
  }

  /** A number is a grey: the same value on red, green and blue, and an opaque alpha. */
  lemma NumberIsGray(n: JsNumber)
    ensures Expected(Num(n)) == Ok([n, n, n, Finite(255.0)])
  {
  }

  /** The array path keeps the caller's entries where they are and only appends defaults. */
  lemma ArrayKeepsEntries(a: JsArray)
    ensures Expected(Arr(a)).Ok?
    ensures |Expected(Arr(a)).value| == if |a.items| >= 4 then |a.items| else 4
    ensures Expected(Arr(a)).value[..|a.items|] == a.items
    ensures forall i :: |a.items| <= i < |Expected(Arr(a)).value| ==> Expected(Arr(a)).value[i] == DefaultColors[i]
  {
  }

  /** Feeding a result back in as an array gives the same result. */
  lemma ResultIsFixedPoint(color: Descriptor, a: JsArray)
    requires Expected(color).Ok? && a.items == Expected(color).value
    ensures Expected(Arr(a)) == Expected(color)
  {
    NormalizedIdempotent(a.items);
  }

  /** A string throws exactly when it neither starts with `#` nor holds a match of `rgb(`/`rgba(` ... `)`. */
  lemma StringThrows(s: string)
    ensures Expected(Str(s)).Throws? <==>
      (s == [] || s[0] != '#') && forall i: nat, g :: i <= |s| ==> !MatchesAt(s, i, g)
  {
    RgbMatchCorrect(s);
  }

  /** `null` throws; only shapes that are none of number, string, array or object give `undefined`. */
  lemma NullThrowsOtherUndefined()
    ensures Expected(Null) == Throws
    ensures Expected(Other) == Undefined
  {
  }
}
