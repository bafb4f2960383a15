/**
 * The JavaScript number parsers getRGBA calls: `parseInt(str, radix)` and,
 * for component text that holds a decimal point, `Number(value)`.
 */
module JsParse {
  import opened JsNumbers
  import opened JsText

  /** `s` without its leading white space. */
  function TrimStart(s: string): (r: string)
    ensures |r| <= |s|
    ensures r == [] || !IsWhiteSpace(r[0])
  {
    if s != [] && IsWhiteSpace(s[0]) then TrimStart(s[1..]) else s
  }

  /** `s` without its trailing white space. */
  function TrimEnd(s: string): (r: string)
    ensures |r| <= |s|
    ensures r == [] || !IsWhiteSpace(r[|r| - 1])
  {
    if s != [] && IsWhiteSpace(s[|s| - 1]) then TrimEnd(s[..|s| - 1]) else s
  }

  /** Trimming the start drops only white space, and keeps the rest as it was. */
  lemma {:induction false} TrimStartDropsWhiteSpace(s: string)
    ensures var k := |s| - |TrimStart(s)|;
      TrimStart(s) == s[k..] && forall i :: 0 <= i < k ==> IsWhiteSpace(s[i])
  {
    if s != [] && IsWhiteSpace(s[0]) {
      TrimStartDropsWhiteSpace(s[1..]);
      var k := |s| - |TrimStart(s)|;
      assert s[1..][k - 1..] == s[k..];
      forall i | 0 <= i < k ensures IsWhiteSpace(s[i]) {
        if i > 0 { assert s[i] == s[1..][i - 1]; }
      }
    }
  }

  /** Trimming the end drops only white space, and keeps the rest as it was. */
  lemma {:induction false} TrimEndDropsWhiteSpace(s: string)
    ensures var k := |TrimEnd(s)|;
      TrimEnd(s) == s[..k] && forall i :: k <= i < |s| ==> IsWhiteSpace(s[i])
  {
    if s != [] && IsWhiteSpace(s[|s| - 1]) {
      var t := s[..|s| - 1];
      TrimEndDropsWhiteSpace(t);
      var k := |TrimEnd(s)|;
      assert t[..k] == s[..k];
      forall i | k <= i < |s| ensures IsWhiteSpace(s[i]) {
        if i < |s| - 1 { assert s[i] == t[i]; }
      }
    }
  }

  /** The length of the longest prefix of `s` made of digits of `radix`. */
  function DigitRun(s: string, radix: nat): (n: nat)
    ensures n <= |s| && AllDigits(s[..n], radix)
    ensures n < |s| ==> !IsDigit(s[n], radix)
  {
    if s == [] || !IsDigit(s[0], radix) then 0
    else
      var n := 1 + DigitRun(s[1..], radix);
      assert s[..n] == [s[0]] + s[1..][..n - 1];
      n
  }

  /** The run of digits at the front of `z + rest` is `z` when `rest` does not start with a digit. */
  lemma {:induction false} DigitRunOf(z: string, rest: string, radix: nat)
    requires AllDigits(z, radix)
    requires rest == [] || !IsDigit(rest[0], radix)
    ensures DigitRun(z + rest, radix) == |z| && (z + rest)[..|z|] == z
  {
    if z != [] {
      assert (z + rest)[1..] == z[1..] + rest;
      DigitRunOf(z[1..], rest, radix);
    }
  }

  /** The value of a digit string, most significant digit first. */
  function DigitsValue(z: string, radix: nat): nat {
    if z == [] then 0
    else DigitsValue(z[..|z| - 1], radix) * radix + DigitValue(z[|z| - 1])
  }

  /** A two-digit string: the first digit counts `radix` times. */
  lemma DigitsValuePair(a: char, b: char, radix: nat)
    ensures DigitsValue([a, b], radix) == radix * DigitValue(a) + DigitValue(b)
  {
    assert [a, b][..1] == [a];
    assert [a][..0] == [];
    assert DigitsValue([], radix) == 0;
    assert DigitsValue([a], radix) == 0 * radix + DigitValue(a) == DigitValue(a);
  }

  /** `n.toString(radix)`. */
  function Format(n: nat, radix: nat): (z: string)
    requires 2 <= radix <= 36
    decreases n
  {
    if n < radix then [DigitChar(n)]
    else
      DivideByRadix(n, radix);
      Format(n / radix, radix) + [DigitChar(n % radix)]
  }

  /** Euclidean division by the radix splits `n` into a smaller quotient and a last digit. */
  lemma DivideByRadix(n: nat, radix: nat)
    requires 2 <= radix <= n
    ensures n / radix < n && (n / radix) * radix + n % radix == n
  {
  }

  /** Formatting writes digits of the radix whose value is the number formatted. */
  lemma {:induction false} FormatDigits(n: nat, radix: nat)
    requires 2 <= radix <= 36
    ensures Format(n, radix) != [] && AllDigits(Format(n, radix), radix)
    ensures DigitsValue(Format(n, radix), radix) == n
    decreases n
  {
    var z := Format(n, radix);
    if n >= radix {
      var q, d := n / radix, n % radix;
      DivideByRadix(n, radix);
      FormatDigits(q, radix);
      var y := Format(q, radix);
      assert z == y + [DigitChar(d)];
      assert z[..|z| - 1] == y;
      assert DigitsValue(z, radix) == DigitsValue(y, radix) * radix + d;
      assert AllDigits(z, radix) by {
        forall i | 0 <= i < |z| ensures IsDigit(z[i], radix) {
          if i < |y| { assert z[i] == y[i]; }
        }
      }
    }
  }

  /** `z` starts with `0x` or `0X`. */
  predicate HasHexPrefix(z: string) {
    |z| >= 2 && z[0] == '0' && (z[1] == 'x' || z[1] == 'X')
  }

  /**
   * `parseInt` on text that starts after the leading white space: an optional
   * sign, a `0x` prefix dropped when the radix is 16, then the longest run of
   * digits; no digit at all gives NaN.
   */
  function ParseIntTrimmed(t: string, radix: nat): (r: JsNumber)
    requires 2 <= radix <= 36
  {
    var negative := t != [] && t[0] == '-';
    var u := if t != [] && (t[0] == '-' || t[0] == '+') then t[1..] else t;
    var v := if radix == 16 && HasHexPrefix(u) then u[2..] else u;
    var z := v[..DigitRun(v, radix)];
    if z == [] then NaN
    else if negative then Finite(-(DigitsValue(z, radix) as real))
    else Finite(DigitsValue(z, radix) as real)
  }

  /** `parseInt(s, radix)` for a radix from 2 to 36: leading white space is skipped. */
  function ParseInt(s: string, radix: nat): JsNumber
    requires 2 <= radix <= 36
  {
    ParseIntTrimmed(TrimStart(s), radix)
  }

  /** Digits of the radix followed by `rest` read as the value of the digits, unless they form a hex prefix. */
  lemma DigitsThen(z: string, rest: string, radix: nat)
    requires 2 <= radix <= 36
    requires z != [] && AllDigits(z, radix)
    requires rest == [] || !IsDigit(rest[0], radix)
    requires radix == 16 ==> !HasHexPrefix(z + rest)
    ensures ParseInt(z + rest, radix) == Finite(DigitsValue(z, radix) as real)
  {
    var s := z + rest;
    assert s[0] == z[0];
    assert !IsWhiteSpace(s[0]);
    assert TrimStart(s) == s;
    DigitRunOf(z, rest, radix);
    assert s[0] != '-' && s[0] != '+';
    assert !(radix == 16 && HasHexPrefix(s));
    assert ParseIntTrimmed(s, radix) == Finite(DigitsValue(z, radix) as real);
  }

  /** A string of nothing but digits of the radix reads as its value. */
  lemma ParseIntDigits(z: string, radix: nat)
    requires 2 <= radix <= 36
    requires z != [] && AllDigits(z, radix)
    ensures ParseInt(z, radix) == Finite(DigitsValue(z, radix) as real)
  {
    assert z + [] == z;
    assert radix == 16 && |z| >= 2 ==> IsDigit(z[1], 16);
    DigitsThen(z, [], radix);
  }

  /** parseInt reads back what toString wrote. */
  lemma ParseIntFormat(n: nat, radix: nat)
    requires 2 <= radix <= 36
    ensures ParseInt(Format(n, radix), radix) == Finite(n as real)
  {
    FormatDigits(n, radix);
    ParseIntDigits(Format(n, radix), radix);
  }

  /** Leading white space is skipped. */
  lemma ParseIntSkipsWhiteSpace(c: char, s: string, radix: nat)
    requires 2 <= radix <= 36 && IsWhiteSpace(c)
    ensures ParseInt([c] + s, radix) == ParseInt(s, radix)
  {
    assert ([c] + s)[1..] == s;
  }

  /** Reading stops at the first character that is not a digit: what follows is ignored. */
  lemma ParseIntStopsAtNonDigit(z: string, rest: string, radix: nat)
    requires 2 <= radix <= 36
    requires z != [] && AllDigits(z, radix)
    requires rest != [] && !IsDigit(rest[0], radix)
    requires radix == 16 ==> !HasHexPrefix(z + rest)
    ensures ParseInt(z + rest, radix) == Finite(DigitsValue(z, radix) as real)
  {
    DigitsThen(z, rest, radix);
  }

  /** In radix 16 a `0x` prefix is dropped before the digits are read. */
  lemma ParseIntHexPrefix(z: string)
    requires AllDigits(z, 16)
    ensures ParseInt("0x" + z, 16) == if z == [] then NaN else Finite(DigitsValue(z, 16) as real)
  {
    var s := "0x" + z;
    assert TrimStart(s) == s;
    assert s[2..] == z;
    DigitRunOf(z, [], 16);
    assert z + [] == z;
  }

  /** A leading minus sign negates. */
  lemma ParseIntNegative(z: string, radix: nat)
    requires 2 <= radix <= 36
    requires z != [] && AllDigits(z, radix)
    ensures ParseInt("-" + z, radix) == Finite(-(DigitsValue(z, radix) as real))
  {
    var s := "-" + z;
    assert TrimStart(s) == s;
    assert s[1..] == z;
    assert radix == 16 && |z| >= 2 ==> IsDigit(z[1], 16);
    DigitRunOf(z, [], radix);
    assert z + [] == z;
  }

  /** `x` times 10 to the power `e`, one factor of ten at a time. */
  function Scale(x: real, e: int): (r: real)
    ensures x > 0.0 ==> r > 0.0
    ensures x == 0.0 ==> r == 0.0
    decreases if e < 0 then -e else e
  {
    if e == 0 then x
    else if e > 0 then 10.0 * Scale(x, e - 1)
    else Scale(x, e + 1) / 10.0
  }

  /** Scaling by 10 to the power 0 leaves `x`, and one more power is one more factor of ten: `Scale(x, e)` is x * 10^e. */
  lemma ScaleStep(x: real, e: int)
    ensures Scale(x, 0) == x
    ensures Scale(x, e + 1) == 10.0 * Scale(x, e)
  {
  }

  /** The ExponentPart of a decimal literal, if `x` is empty or exactly one: `e` or `E`, an optional sign, digits. */
  function Exponent(x: string): Option<int> {
    if x == [] then Some(0)
    else if x[0] != 'e' && x[0] != 'E' then None
    else
      var y := x[1..];
      var digits := if y != [] && (y[0] == '+' || y[0] == '-') then y[1..] else y;
      var e: int := DigitsValue(digits, 10);
      if digits == [] || !AllDigits(digits, 10) then None
      else if y[0] == '-' then Some(-e)
      else Some(e)
  }

  /** The value of the decimal digits `a`, a point, and the decimal digits `b`. */
  function DecimalValue(a: string, b: string): real {
    DigitsValue(a, 10) as real + Scale(DigitsValue(b, 10) as real, -|b|)
  }

  /**
   * An unsigned decimal literal that has a point: decimal digits, the point,
   * decimal digits (at least one digit on either side of the point) and an
   * optional exponent.
   */
  function PointLiteral(u: string): Option<real> {
    var p := DigitRun(u, 10);
    if p == |u| || u[p] != '.' then None
    else
      var f := u[p + 1..];
      var q := DigitRun(f, 10);
      if p == 0 && q == 0 then None
      else
        match Exponent(f[q..])
        case None => None
        case Some(e) => Some(Scale(DecimalValue(u[..p], f[..q]), e))
  }

  /**
   * `Number(s)` for a string that contains a decimal point: after trimming
   * white space on both ends, an optional sign and a literal with a point;
   * anything else is NaN.
   */
  function StringToNumber(s: string): JsNumber
    requires '.' in s
  {
    var t := TrimEnd(TrimStart(s));
    var negative := t != [] && t[0] == '-';
    var u := if t != [] && (t[0] == '-' || t[0] == '+') then t[1..] else t;
    match PointLiteral(u)
    case None => NaN
    case Some(m) => Finite(if negative then -m else m)
  }

  /** Digits, a point and digits read as the decimal fraction they write. */
  lemma PointLiteralDecimal(a: string, b: string)
    requires AllDigits(a, 10) && AllDigits(b, 10) && |a| + |b| > 0
    ensures PointLiteral(a + "." + b) == Some(DecimalValue(a, b))
  {
    var s := a + ("." + b);
    assert s == a + "." + b;
    DigitRunOf(a, "." + b, 10);
    assert s[|a|] == '.';
    assert s[|a| + 1..] == b;
    DigitRunOf(b, [], 10);
    assert b + [] == b;
    assert b[|b|..] == [];
    assert Exponent([]) == Some(0);
  }

  /** `Number` of digits, a point and digits, as written without sign or white space. */
  lemma StringToNumberDecimal(a: string, b: string)
    requires AllDigits(a, 10) && AllDigits(b, 10) && |a| + |b| > 0
    ensures StringToNumber(a + "." + b) == Finite(DecimalValue(a, b))
  {
    var s := a + "." + b;
    assert s[|a|] == '.';
    assert s[0] == if a != [] then a[0] else '.';
    assert !IsWhiteSpace(s[0]);
    assert TrimStart(s) == s;
    assert s[|s| - 1] == if b != [] then b[|b| - 1] else '.';
    assert !IsWhiteSpace(s[|s| - 1]);
    assert TrimEnd(s) == s;
    assert s[0] != '-' && s[0] != '+';
    PointLiteralDecimal(a, b);
  }
}
