/** Concrete descriptors and what getRGBA makes of them. */
module GetRgbaCases {
  import opened JsNumbers
  import opened JsText
  import opened JsParse
  import opened GetRgba

  function N(x: int): JsNumber {
    Finite(x as real)
  }

  /** `#` and three hex digits: each digit doubled, alpha padded. */
  lemma HexThree(a: char, b: char, c: char)
    requires IsDigit(a, 16) && IsDigit(b, 16) && IsDigit(c, 16)
    ensures Expected(Str(['#', a, b, c])) == Ok([N(17 * DigitValue(a)), N(17 * DigitValue(b)), N(17 * DigitValue(c)), N(255)])
  {
    var z := [a, b, c];
    assert ['#', a, b, c] == "#" + z;
    HexShortForm(z);
    var ch := HexChannels("#" + z);
    assert ch == [N(17 * DigitValue(a)), N(17 * DigitValue(b)), N(17 * DigitValue(c))];
    PaddedHex("#" + z, ch);
    assert ch + [N(255)] == [N(17 * DigitValue(a)), N(17 * DigitValue(b)), N(17 * DigitValue(c)), N(255)];
  }

  /** A `#` string whose hex path gives three channels gets an opaque alpha. */
  lemma PaddedHex(s: string, ch: seq<JsNumber>)
    requires s != [] && s[0] == '#' && HexChannels(s) == ch && |ch| == 3
    ensures Expected(Str(s)) == Ok(ch + [N(255)])
  {
    assert StringChannels(s) == Some(ch);
    PaddedThree(s, ch);
  }

  /** A string read as three channels gets an opaque alpha. */
  lemma PaddedThree(s: string, ch: seq<JsNumber>)
    requires StringChannels(s) == Some(ch) && |ch| == 3
    ensures Expected(Str(s)) == Ok(ch + [N(255)])
  {
    var r := Normalized(ch);
    assert r[..3] == ch;
    assert r == r[..3] + [r[3]];
  }

  /** Six hex digits after the `#`: three channels, one per pair. */
  lemma HexSixChannels(z: string)
    requires |z| == 6 && AllDigits(z, 16)
    ensures HexChannels("#" + z) ==
      [N(16 * DigitValue(z[0]) + DigitValue(z[1])), N(16 * DigitValue(z[2]) + DigitValue(z[3])), N(16 * DigitValue(z[4]) + DigitValue(z[5]))]
  {
    HexLongForm(z);
    var ch := HexChannels("#" + z);
    assert ch[0] == N(16 * DigitValue(z[0]) + DigitValue(z[1]));
    assert ch[1] == N(16 * DigitValue(z[2]) + DigitValue(z[3]));
    assert ch[2] == N(16 * DigitValue(z[4]) + DigitValue(z[5]));
  }

  /** `#` and six hex digits: a channel per pair, alpha padded. */
  lemma HexSix(z: string)
    requires |z| == 6 && AllDigits(z, 16)
    ensures Expected(Str("#" + z)) ==
      Ok([N(16 * DigitValue(z[0]) + DigitValue(z[1])), N(16 * DigitValue(z[2]) + DigitValue(z[3])), N(16 * DigitValue(z[4]) + DigitValue(z[5])), N(255)])
  {
    HexSixChannels(z);
    var ch := HexChannels("#" + z);
    assert ("#" + z)[0] == '#';
    PaddedHex("#" + z, ch);
    assert ch + [N(255)] ==
      [N(16 * DigitValue(z[0]) + DigitValue(z[1])), N(16 * DigitValue(z[2]) + DigitValue(z[3])), N(16 * DigitValue(z[4]) + DigitValue(z[5])), N(255)];
  }

  /** `#fff` is opaque white. */
  lemma HexShortWhite()
    ensures Expected(Str("#fff")) == Ok([N(255), N(255), N(255), N(255)])
  {
    assert DigitValue('f') == 15;
    HexThree('f', 'f', 'f');
  }

  /** `#abc` doubles each digit: 0xaa, 0xbb, 0xcc. */
  lemma HexShortAbc()
    ensures Expected(Str("#abc")) == Ok([N(170), N(187), N(204), N(255)])
  {
    assert DigitValue('a') == 10 && DigitValue('b') == 11 && DigitValue('c') == 12;
    HexThree('a', 'b', 'c');
  }

  /** `#000000` is opaque black. */
  lemma HexLongBlack()
    ensures Expected(Str("#000000")) == Ok([N(0), N(0), N(0), N(255)])
  {
    assert DigitValue('0') == 0;
    assert "#000000" == "#" + "000000";
    HexSix("000000");
  }

  /** Seven hex digits after the `#`: three channels from pairs, then the last digit doubled. */
  lemma HexSevenChannels(z: string)
    requires |z| == 7 && AllDigits(z, 16)
    ensures HexChannels("#" + z) ==
      [N(16 * DigitValue(z[0]) + DigitValue(z[1])), N(16 * DigitValue(z[2]) + DigitValue(z[3])),
       N(16 * DigitValue(z[4]) + DigitValue(z[5])), N(17 * DigitValue(z[6]))]
  {
    HexLongForm(z);
    var ch := HexChannels("#" + z);
    assert ch[0] == N(16 * DigitValue(z[0]) + DigitValue(z[1]));
    assert ch[1] == N(16 * DigitValue(z[2]) + DigitValue(z[3]));
    assert ch[2] == N(16 * DigitValue(z[4]) + DigitValue(z[5]));
    assert ch[3] == N(17 * DigitValue(z[6]));
  }

  /** A `#` string whose hex path gives four or more channels is taken as it is. */
  lemma UnpaddedHex(s: string, ch: seq<JsNumber>)
    requires s != [] && s[0] == '#' && HexChannels(s) == ch && |ch| >= 4
    ensures Expected(Str(s)) == Ok(ch)
  {
    NormalizedIdempotent(ch);
  }

  /** `#1234567`: three pairs, then the odd last digit doubled; four channels, so no padding. */
  lemma HexSevenDigits()
    ensures Expected(Str("#1234567")) == Ok([N(18), N(52), N(86), N(119)])
  {
    var z := "1234567";
    SevenDigitsText();
    assert DigitValue('1') == 1 && DigitValue('2') == 2 && DigitValue('3') == 3 && DigitValue('4') == 4;
    assert DigitValue('5') == 5 && DigitValue('6') == 6 && DigitValue('7') == 7;
    HexSevenChannels(z);
    UnpaddedHex("#" + z, [N(18), N(52), N(86), N(119)]);
  }

  /** `#ffffff` is opaque white. */
  lemma HexLongWhite()
    ensures Expected(Str("#ffffff")) == Ok([N(255), N(255), N(255), N(255)])
  {
    assert DigitValue('f') == 15;
    assert "#ffffff" == "#" + "ffffff";
    HexSix("ffffff");
  }

  // ---- rgb( and rgba( strings ----

  /** `rgb(g)` at the very start is the match. */
  lemma RgbAtStart(g: string)
    requires ')' !in g
    ensures RgbMatch("rgb(" + g + ")") == Some(g)
  {
    var s := "rgb(" + g + ")";
    assert s[0..4] == "rgb(";
    assert s[4..4 + |g + ")"|] == g + ")";
    assert MatchesAt(s, 0, g);
    MatchesAtThenMatchAt(s, 0, g);
  }

  /** `rgba(g)` at the very start is the match. */
  lemma RgbaAtStart(g: string)
    requires ')' !in g
    ensures RgbMatch("rgba(" + g + ")") == Some(g)
  {
    var s := "rgba(" + g + ")";
    assert s[0..5] == "rgba(";
    assert s[5..5 + |g + ")"|] == g + ")";
    assert MatchesAt(s, 0, g);
    MatchesAtThenMatchAt(s, 0, g);
  }

  /** A string that is not hex and has a match is read from the match's group. */
  lemma ReadsGroup(s: string, g: string)
    requires s != [] && s[0] != '#' && RgbMatch(s) == Some(g)
    ensures StringChannels(s) == Some(Components(g))
  {
  }

  /** Three pieces without commas, joined by commas, give one component each. */
  lemma ThreeComponents(x: string, y: string, w: string)
    requires ',' !in x && ',' !in y && ',' !in w
    ensures Components(x + "," + y + "," + w) == [ComponentValue(x), ComponentValue(y), ComponentValue(w)]
  {
    assert Join([x, y, w], ',') == x + "," + y + "," + w by {
      assert Join([y, w], ',') == y + [','] + w by { assert [y, w][1..] == [w]; }
      assert [x, y, w][1..] == [y, w];
    }
    SplitJoin([x, y, w], ',');
  }

  /** Four pieces without commas, joined by commas, give one component each. */
  lemma FourComponents(x: string, y: string, w: string, v: string)
    requires ',' !in x && ',' !in y && ',' !in w && ',' !in v
    ensures Components(x + "," + y + "," + w + "," + v) ==
      [ComponentValue(x), ComponentValue(y), ComponentValue(w), ComponentValue(v)]
  {
    assert Join([x, y, w, v], ',') == x + "," + y + "," + w + "," + v by {
      assert Join([w, v], ',') == w + [','] + v by { assert [w, v][1..] == [v]; }
      assert Join([y, w, v], ',') == y + [','] + w + [','] + v by { assert [y, w, v][1..] == [w, v]; }
      assert [x, y, w, v][1..] == [y, w, v];
    }
    SplitJoin([x, y, w, v], ',');
  }

  /** `rgb(x,y,w)`: one channel per component, alpha padded. */
  lemma RgbThree(x: string, y: string, w: string)
    requires ',' !in x && ',' !in y && ',' !in w && ')' !in x && ')' !in y && ')' !in w
    ensures Expected(Str("rgb(" + x + "," + y + "," + w + ")")) ==
      Ok([ComponentValue(x), ComponentValue(y), ComponentValue(w), N(255)])
  {
    var g := x + "," + y + "," + w;
    assert ')' !in g;
    var s := "rgb(" + g + ")";
    assert "rgb(" + x + "," + y + "," + w + ")" == s;
    RgbAtStart(g);
    assert s[0] == 'r';
    ReadsGroup(s, g);
    ThreeComponents(x, y, w);
    var ch := [ComponentValue(x), ComponentValue(y), ComponentValue(w)];
    PaddedThree(s, ch);
    assert ch + [N(255)] == [ComponentValue(x), ComponentValue(y), ComponentValue(w), N(255)];
  }

  /** `rgba(x,y,w,v)`: four channels taken as they are. */
  lemma RgbaFour(x: string, y: string, w: string, v: string)
    requires ',' !in x && ',' !in y && ',' !in w && ',' !in v
    requires ')' !in x && ')' !in y && ')' !in w && ')' !in v
    ensures Expected(Str("rgba(" + x + "," + y + "," + w + "," + v + ")")) ==
      Ok([ComponentValue(x), ComponentValue(y), ComponentValue(w), ComponentValue(v)])
  {
    var g := x + "," + y + "," + w + "," + v;
    assert ')' !in g;
    var s := "rgba(" + g + ")";
    assert "rgba(" + x + "," + y + "," + w + "," + v + ")" == s;
    RgbaAtStart(g);
    assert s[0] == 'r';
    ReadsGroup(s, g);
    FourComponents(x, y, w, v);
    var ch := [ComponentValue(x), ComponentValue(y), ComponentValue(w), ComponentValue(v)];
    assert Normalized(ch) == ch;
  }

  /** A two-digit component is read as written. */
  lemma TwoDigitComponent(a: char, b: char)
    requires IsDigit(a, 10) && IsDigit(b, 10)
    ensures ComponentValue([a, b]) == N(10 * DigitValue(a) + DigitValue(b))
  {
    assert '.' !in [a, b];
    StringToIntPair(a, b, 10);
  }

  /** A space then one digit: two characters, so not doubled, and the space is skipped. */
  lemma SpacedDigitComponent(c: char)
    requires IsDigit(c, 10)
    ensures ComponentValue([' ', c]) == N(DigitValue(c))
  {
    var s := [' ', c];
    assert ComponentValue(s) == ParseInt(s, 10) by {
      assert '.' !in s;
    }
    assert ParseInt(s, 10) == ParseInt([c], 10) by {
      assert s == [' '] + [c];
      ParseIntSkipsWhiteSpace(' ', [c], 10);
    }
    ParseIntDigits([c], 10);
    OneDigitValue(c);
  }

  lemma OneDigitValue(c: char)
    ensures DigitsValue([c], 10) == DigitValue(c)
  {
    assert [c][..0] == [];
  }

  /** One digit, a point, one digit: ten times their value is the two digits read as a whole number. */
  lemma OneDigitDecimal(a: char, b: char)
    ensures 10.0 * DecimalValue([a], [b]) == (10 * DigitValue(a) + DigitValue(b)) as real
  {
    OneDigitValue(a);
    OneDigitValue(b);
    assert Scale(DigitValue(b) as real, -1) == Scale(DigitValue(b) as real, 0) / 10.0;
  }

  /** `rgb(10,20,30)` is read as written. */
  lemma RgbDecimal()
    ensures Expected(Str("rgb(10,20,30)")) == Ok([N(10), N(20), N(30), N(255)])
  {
    DecimalText();
    RgbTens('1', '2', '3');
  }

  /** Three two-digit multiples of ten are read as written. */
  lemma RgbTens(a: char, b: char, c: char)
    requires '1' <= a <= '9' && '1' <= b <= '9' && '1' <= c <= '9'
    ensures Expected(Str("rgb(" + [a, '0'] + "," + [b, '0'] + "," + [c, '0'] + ")")) ==
      Ok([N(10 * (a as int - '0' as int)), N(10 * (b as int - '0' as int)), N(10 * (c as int - '0' as int)), N(255)])
  {
    RgbThree([a, '0'], [b, '0'], [c, '0']);
    TensComponent(a);
    TensComponent(b);
    TensComponent(c);
  }

  /** `rgb(1,2,3)`: each one-digit component is doubled, as if it were hex shorthand. */
  lemma RgbSingleDigits()
    ensures Expected(Str("rgb(1,2,3)")) == Ok([N(11), N(22), N(33), N(255)])
  {
    assert DigitValue('1') == 1 && DigitValue('2') == 2 && DigitValue('3') == 3;
    DecimalComponentDoubled('1');
    DecimalComponentDoubled('2');
    DecimalComponentDoubled('3');
    SingleDigitsText();
    RgbThree("1", "2", "3");
  }

  /** `rgb(1, 2, 3)`: only the first component is doubled, the spaced ones are two characters long. */
  lemma RgbSpacedDigits()
    ensures Expected(Str("rgb(1, 2, 3)")) == Ok([N(11), N(2), N(3), N(255)])
  {
    assert DigitValue('1') == 1 && DigitValue('2') == 2 && DigitValue('3') == 3;
    DecimalComponentDoubled('1');
    SpacedDigitComponent('2');
    SpacedDigitComponent('3');
    SpacedDigitsText();
    RgbThree("1", " 2", " 3");
  }

  /** `rgba(0,0,0,0.5)`: half alpha is 256 * 0.5 = 128. */
  lemma RgbaHalfAlpha()
    ensures Expected(Str("rgba(0,0,0,0.5)")) == Ok([N(0), N(0), N(0), N(128)])
  {
    HalfAlphaText();
    RgbaFour("0", "0", "0", "0.5");
    assert ComponentValue("0") == N(0) by {
      assert DigitValue('0') == 0;
      DecimalComponentDoubled('0');
    }
    assert ComponentValue("0.5") == N(128) by {
      assert DigitValue('5') == 5;
      FractionBelowOne('5');
    }
  }

  /** A component `0.b`: 256 times its value, 25.6 per tenth. */
  lemma FractionBelowOne(b: char)
    requires IsDigit(b, 10)
    ensures ComponentValue(['0'] + "." + [b]) == Finite(25.6 * DigitValue(b) as real)
  {
    var s := ['0'] + "." + [b];
    var d := DecimalValue(['0'], [b]);
    assert StringToNumber(s) == Finite(d) by {
      StringToNumberDecimal(['0'], [b]);
    }
    assert d == 0.1 * DigitValue(b) as real by {
      OneDigitDecimal('0', b);
    }
    assert ComponentValue(s) == Min(Finite(255.0), Times(Finite(256.0), Finite(d))) by {
      assert s[1] == '.';
    }
    var v := 25.6 * DigitValue(b) as real;
    assert Times(Finite(256.0), Finite(d)) == Finite(v);
    assert v <= 255.0;
  }

  // ---- strings that throw ----

  /** A string that does not start with `#` and has no `(` holds no match, so getRGBA throws. */
  lemma NoParenThrows(s: string)
    requires (s == [] || s[0] != '#') && '(' !in s
    ensures Expected(Str(s)) == Throws
  {
    forall i: nat, g | i <= |s| ensures !MatchesAt(s, i, g) {
      MatchHasParen(s, i, g);
    }
    StringThrows(s);
  }

  /** Every match holds the `(` of its opener. */
  lemma MatchHasParen(s: string, i: nat, g: string)
    ensures MatchesAt(s, i, g) ==> '(' in s
  {
    if OpensAt(s, i, "rgb(", g) {
      assert s[i + 3] == s[i..i + 4][3];
    } else if OpensAt(s, i, "rgba(", g) {
      assert s[i + 4] == s[i..i + 5][4];
    }
  }

  /** `not-a-color` throws rather than giving `undefined`. */
  lemma NotAColorThrows()
    ensures Expected(Str("not-a-color")) == Throws
  {
    NoParenThrows("not-a-color");
  }

  /** The empty string throws too. */
  lemma EmptyStringThrows()
    ensures Expected(Str("")) == Throws
  {
    NoParenThrows("");
  }

  // ---- arrays and objects ----

  /** `[1, 2, 3]` is padded in place with an opaque alpha, and the caller's own array comes back. */
  method PadThreeEntries() returns (a: JsArray, r: Result<JsArray>)
    ensures r == Ok(a)
    ensures a.items == [N(1), N(2), N(3), N(255)]
  {
    a := new JsArray([N(1), N(2), N(3)]);
    r := GetRgba.GetRgba(Arr(a));
  }

  /** `[1, 2, 3, 4]` already has four entries and comes back unchanged. */
  method KeepFourEntries() returns (a: JsArray, r: Result<JsArray>)
    ensures r == Ok(a)
    ensures a.items == [N(1), N(2), N(3), N(4)]
  {
    a := new JsArray([N(1), N(2), N(3), N(4)]);
    r := GetRgba.GetRgba(Arr(a));
  }

  /** `{red: 10, green: 20, blue: 30}`: the missing alpha defaults to 255. */
  lemma ObjectMissingAlpha()
    ensures Expected(Obj(ColorObject(Some(N(10)), Some(N(20)), Some(N(30)), None))) == Ok([N(10), N(20), N(30), N(255)])
  {
  }

  /** `{red: 0, green: 5, blue: 5, alpha: 0}`: 0 is falsy, so alpha becomes 255, and red stays 0 only as the default. */
  lemma ObjectZeroAlpha()
    ensures Expected(Obj(ColorObject(Some(N(0)), Some(N(5)), Some(N(5)), Some(N(0))))) == Ok([N(0), N(5), N(5), N(255)])
  {
  }

  /** A NaN property falls back to its default as well. */
  lemma ObjectNaNRed()
    ensures Expected(Obj(ColorObject(Some(NaN), None, None, Some(N(5))))) == Ok([N(0), N(0), N(0), N(5)])
  {
  }

  // Proof helpers: the concrete strings above, cut into the pieces the generic lemmas speak of.

  /** Helper for `HexSevenDigits`. */
  lemma SevenDigitsText()
    ensures "#1234567" == "#" + "1234567"
  {
  }

  /** Helper for `RgbDecimal`. */
  lemma DecimalText()
    ensures "rgb(10,20,30)" == "rgb(" + ['1', '0'] + "," + ['2', '0'] + "," + ['3', '0'] + ")"
  {
  }

  /** Helper for `RgbSingleDigits`. */
  lemma SingleDigitsText()
    ensures "rgb(1,2,3)" == "rgb(" + "1" + "," + "2" + "," + "3" + ")"
  {
  }

  /** Helper for `RgbSpacedDigits`. */
  lemma SpacedDigitsText()
    ensures "rgb(1, 2, 3)" == "rgb(" + "1" + "," + " 2" + "," + " 3" + ")"
  {
  }

  /** Helper for `RgbaHalfAlpha`. */
  lemma HalfAlphaText()
    ensures "rgba(0,0,0,0.5)" == "rgba(" + "0" + "," + "0" + "," + "0" + "," + "0.5" + ")"
    ensures "0.5" == ['0'] + "." + ['5']
  {
  }

  lemma TensComponent(d: char)
    requires '1' <= d <= '9'
    ensures ComponentValue([d, '0']) == N(10 * (d as int - '0' as int))
  {
    TwoDigitComponent(d, '0');
  }
}
