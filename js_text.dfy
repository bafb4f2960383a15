/**
 * The JavaScript string built-ins getRGBA calls: character classes,
 * `substring`, `replace(/[^0-9]/, '')`, `split(',')` and the match of
 * `/rgb(?:a?)\(([^)]*)\)/`.
 */
module JsText {
  import opened JsNumbers

  /** StrWhiteSpaceChar of ECMAScript: a WhiteSpace (TAB, VT, FF, ZWNBSP or any Zs character) or a LineTerminator. */
  predicate IsWhiteSpace(c: char) {
    if c <= ' ' then
      // TAB, LF, VT, FF, CR and SPACE
      c == ' ' || '\t' <= c <= '\r'
    else
      c >= '\U{00A0}' &&
      (c == '\U{00A0}' || c == '\U{1680}' || ('\U{2000}' <= c <= '\U{200A}')
       || c == '\U{202F}' || c == '\U{205F}' || c == '\U{3000}'
       || c == '\U{2028}' || c == '\U{2029}' || c == '\U{FEFF}')
  }

  /** The value of `c` as a digit of a radix up to 36 (either letter case); 36 when `c` is no digit at all. */
  function DigitValue(c: char): (v: nat)
    ensures v <= 36
  {
    if '0' <= c <= '9' then c as int - '0' as int
    else if 'a' <= c <= 'z' then c as int - 'a' as int + 10
    else if 'A' <= c <= 'Z' then c as int - 'A' as int + 10
    else 36
  }

  predicate IsDigit(c: char, radix: nat) {
    DigitValue(c) < radix
  }

  /** The digit character for `d`, lower case, as `Number.prototype.toString(radix)` writes it. */
  function DigitChar(d: nat): (c: char)
    requires d < 36
    ensures DigitValue(c) == d
  {
    if d < 10 then ('0' as int + d) as char else ('a' as int + d - 10) as char
  }

  /** `c` with an upper-case ASCII letter turned to lower case. */
  function LowerCase(c: char): char {
    if 'A' <= c <= 'Z' then (c as int - 'A' as int + 'a' as int) as char else c
  }

  /**
   * The digits of radix 36 are exactly `0`-`9`, `a`-`z` and `A`-`Z`; a digit's
   * value, written back, is the digit in lower case; the decimal digits are
   * exactly `0`-`9`; every other character has value 36.
   */
  lemma DigitValueChar(c: char)
    ensures IsDigit(c, 36) <==> '0' <= c <= '9' || 'a' <= c <= 'z' || 'A' <= c <= 'Z'
    ensures IsDigit(c, 10) <==> '0' <= c <= '9'
    ensures IsDigit(c, 36) ==> DigitChar(DigitValue(c)) == LowerCase(c)
    ensures !IsDigit(c, 36) ==> DigitValue(c) == 36
  {
  }

  predicate AllDigits(s: string, radix: nat) {
    forall i :: 0 <= i < |s| ==> IsDigit(s[i], radix)
  }

  /** `s.substring(start, end)`: both ends clamped into the string, swapped when reversed. */
  function Substring(s: string, start: int, end: int): (r: string)
    ensures 0 <= start <= end <= |s| ==> r == s[start..end]
    ensures 0 <= start <= |s| <= end ==> r == s[start..]
  {
    var a := if start < 0 then 0 else if start > |s| then |s| else start;
    var b := if end < 0 then 0 else if end > |s| then |s| else end;
    if a <= b then s[a..b] else s[b..a]
  }

  /** The index of the first `c` in `s`. */
  function IndexOf(s: string, c: char): (i: nat)
    requires c in s
    ensures i < |s| && s[i] == c && c !in s[..i]
  {
    if s[0] == c then 0 else 1 + IndexOf(s[1..], c)
  }

  lemma {:induction false} IndexOfAfter(p: string, c: char, rest: string)
    requires c !in p
    ensures c in p + [c] + rest && IndexOf(p + [c] + rest, c) == |p|
  {
    if p != [] {
      assert (p + [c] + rest)[1..] == p[1..] + [c] + rest;
      IndexOfAfter(p[1..], c, rest);
    }
  }

  /** The index of the first character of `s` that is not a decimal digit; `|s|` when there is none. */
  function FirstNonDigit(s: string): (i: nat)
    ensures i <= |s| && AllDigits(s[..i], 10)
    ensures i < |s| ==> !IsDigit(s[i], 10)
  {
    if s == [] || !IsDigit(s[0], 10) then 0
    else
      var i := 1 + FirstNonDigit(s[1..]);
      assert s[..i] == [s[0]] + s[1..][..i - 1];
      i
  }

  /** `s.replace(/[^0-9]/, '')`: removes the first character that is not a decimal digit, if any. */
  function ReplaceFirstNonDigit(s: string): string {
    if s == [] then []
    else if IsDigit(s[0], 10) then [s[0]] + ReplaceFirstNonDigit(s[1..])
    else s[1..]
  }

  /** What the replacement removes: exactly the character at FirstNonDigit, and nothing when all are digits. */
  lemma {:induction false} ReplaceFirstNonDigitRemoves(s: string)
    ensures FirstNonDigit(s) == |s| ==> ReplaceFirstNonDigit(s) == s
    ensures FirstNonDigit(s) < |s| ==>
      ReplaceFirstNonDigit(s) == s[..FirstNonDigit(s)] + s[FirstNonDigit(s) + 1..]
  {
    if s == [] {
    } else if !IsDigit(s[0], 10) {
      assert FirstNonDigit(s) == 0;
      assert s[..0] + s[1..] == s[1..];
    } else {
      var t := s[1..];
      ReplaceFirstNonDigitRemoves(t);
      var j := FirstNonDigit(t);
      assert FirstNonDigit(s) == j + 1;
      assert ReplaceFirstNonDigit(s) == [s[0]] + ReplaceFirstNonDigit(t);
      if j < |t| {
        assert s[..j + 1] == [s[0]] + t[..j];
        assert s[j + 2..] == t[j + 1..];
      } else {
        assert s == [s[0]] + t;
      }
    }
  }

  /** `parts.join(sep)`. */
  function Join(parts: seq<string>, sep: char): string {
    if parts == [] then []
    else if |parts| == 1 then parts[0]
    else parts[0] + [sep] + Join(parts[1..], sep)
  }

  /** `s.split(sep)` for a one-character separator: the pieces between separators, empty ones included. */
  function Split(s: string, sep: char): (parts: seq<string>)
    ensures |parts| >= 1
    ensures forall k :: 0 <= k < |parts| ==> sep !in parts[k]
    ensures Join(parts, sep) == s
    decreases |s|
  {
    if sep !in s then [s]
    else
      var i := IndexOf(s, sep);
      var rest := Split(s[i + 1..], sep);
      assert s == s[..i] + [sep] + s[i + 1..];
      [s[..i]] + rest
  }

  /** Splitting what was joined gives back the pieces, when no piece holds the separator. */
  lemma {:induction false} SplitJoin(parts: seq<string>, sep: char)
    requires |parts| >= 1
    requires forall k :: 0 <= k < |parts| ==> sep !in parts[k]
    ensures Split(Join(parts, sep), sep) == parts
  {
    if |parts| > 1 {
      var rest := Join(parts[1..], sep);
      IndexOfAfter(parts[0], sep, rest);
      var s := parts[0] + [sep] + rest;
      assert s[..|parts[0]|] == parts[0];
      assert s[|parts[0]| + 1..] == rest;
      SplitJoin(parts[1..], sep);
    }
  }

  // ---- the regular expression /rgb(?:a?)\(([^)]*)\)/, unanchored ----

  predicate HasAt(s: string, i: nat, p: string) {
    i + |p| <= |s| && s[i..i + |p|] == p
  }

  /** At index `i`: the opener `o`, then `g`, then `)`. */
  predicate OpensAt(s: string, i: nat, o: string, g: string) {
    HasAt(s, i, o) && HasAt(s, i + |o|, g + ")")
  }

  /** A match of the pattern starting at index `i` whose captured group is `g`. */
  predicate MatchesAt(s: string, i: nat, g: string) {
    ')' !in g && (OpensAt(s, i, "rgb(", g) || OpensAt(s, i, "rgba(", g))
  }

  /** The attempt at index `i`: the opener `rgba(` or `rgb(`, then everything up to the first `)`. */
  function MatchAt(s: string, i: nat): (m: Option<string>)
    requires i <= |s|
  {
    var j := if HasAt(s, i, "rgba(") then i + 5 else if HasAt(s, i, "rgb(") then i + 4 else i;
    if j == i || ')' !in s[j..] then None
    else Some(s[j..j + IndexOf(s[j..], ')')])
  }

  /** The text after an opener that is followed by `g` and `)`: the group read up to the first `)` is `g`. */
  lemma GroupAfter(s: string, j: nat, g: string)
    requires HasAt(s, j, g + ")") && ')' !in g
    ensures j <= |s| && ')' in s[j..] && s[j..j + IndexOf(s[j..], ')')] == g
  {
    assert s[j..j + |g| + 1] == g + ")";
    var rest := s[j + |g| + 1..];
    assert s[j..] == g + [')'] + rest;
    IndexOfAfter(g, ')', rest);
    assert s[j..j + |g|] == s[j..][..|g|] == g;
  }

  lemma MatchesAtThenMatchAt(s: string, i: nat, g: string)
    requires i <= |s| && MatchesAt(s, i, g)
    ensures MatchAt(s, i) == Some(g)
  {
    if OpensAt(s, i, "rgba(", g) {
      GroupAfter(s, i + 5, g);
    } else {
      assert HasAt(s, i, "rgb(");
      assert s[i + 3] == s[i..i + 4][3] == '(';
      assert !HasAt(s, i, "rgba(") by {
        if i + 5 <= |s| { assert s[i..i + 5][3] == s[i + 3]; }
      }
      GroupAfter(s, i + 4, g);
    }
  }

  lemma MatchAtThenMatchesAt(s: string, i: nat, g: string)
    requires i <= |s| && MatchAt(s, i) == Some(g)
    ensures MatchesAt(s, i, g)
  {
    if HasAt(s, i, "rgba(") {
      GroupBefore(s, i + 5);
      assert OpensAt(s, i, "rgba(", g);
    } else {
      GroupBefore(s, i + 4);
      assert OpensAt(s, i, "rgb(", g);
    }
  }

  /** The text from `j` up to the first `)` after it is followed by that `)` and holds none. */
  lemma GroupBefore(s: string, j: nat)
    requires j <= |s| && ')' in s[j..]
    ensures var g := s[j..j + IndexOf(s[j..], ')')]; ')' !in g && HasAt(s, j, g + ")")
  {
    var k := IndexOf(s[j..], ')');
    var g := s[j..j + k];
    assert g == s[j..][..k];
    assert s[j + k] == ')';
    assert s[j..j + |g + ")"|] == g + ")";
  }

  lemma MatchAtIff(s: string, i: nat, g: string)
    requires i <= |s|
    ensures MatchAt(s, i) == Some(g) <==> MatchesAt(s, i, g)
  {
    if MatchesAt(s, i, g) {
      MatchesAtThenMatchAt(s, i, g);
    }
    if MatchAt(s, i) == Some(g) {
      MatchAtThenMatchesAt(s, i, g);
    }
  }

  /** The leftmost match at index `i` or later. */
  function RgbMatchFrom(s: string, i: nat): (m: Option<string>)
    requires i <= |s|
    decreases |s| - i
  {
    if MatchAt(s, i).Some? then MatchAt(s, i)
    else if i == |s| then None
    else RgbMatchFrom(s, i + 1)
  }

  /** The group captured by `s.match(/rgb(?:a?)\(([^)]*)\)/)`, or None when the match is null. */
  function RgbMatch(s: string): Option<string> {
    RgbMatchFrom(s, 0)
  }

  /** A group found is the group of a match, and no earlier index starts a match. */
  lemma {:induction false} RgbMatchFromSound(s: string, i0: nat, g: string)
    requires i0 <= |s|
    requires RgbMatchFrom(s, i0) == Some(g)
    ensures exists i: nat :: i0 <= i <= |s| && MatchesAt(s, i, g) && forall j: nat, h :: i0 <= j < i ==> !MatchesAt(s, j, h)
    decreases |s| - i0
  {
    if MatchAt(s, i0).Some? {
      MatchAtIff(s, i0, g);
      assert MatchesAt(s, i0, g);
    } else {
      forall h ensures !MatchesAt(s, i0, h) { MatchAtIff(s, i0, h); }
      RgbMatchFromSound(s, i0 + 1, g);
      var i: nat :| i0 + 1 <= i <= |s| && MatchesAt(s, i, g) && forall j: nat, h :: i0 + 1 <= j < i ==> !MatchesAt(s, j, h);
      assert forall j: nat, h :: i0 <= j < i ==> !MatchesAt(s, j, h);
    }
  }

  /** When some index at or after `i0` starts a match, the search finds one. */
  lemma {:induction false} RgbMatchFromComplete(s: string, i0: nat, i: nat, g: string)
    requires i0 <= i <= |s|
    requires MatchesAt(s, i, g)
    ensures RgbMatchFrom(s, i0).Some?
    decreases i - i0
  {
    if MatchAt(s, i0).None? {
      if i0 == i {
        MatchAtIff(s, i, g);
      } else {
        RgbMatchFromComplete(s, i0 + 1, i, g);
      }
    }
  }

  /** The match is the leftmost one, and it is null exactly when no index starts a match. */
  lemma RgbMatchCorrect(s: string)
    ensures forall g :: RgbMatch(s) == Some(g) ==>
      exists i: nat :: i <= |s| && MatchesAt(s, i, g) && forall j: nat, h :: j < i ==> !MatchesAt(s, j, h)
    ensures RgbMatch(s).None? <==> forall i: nat, g :: i <= |s| ==> !MatchesAt(s, i, g)
  {
    forall g | RgbMatch(s) == Some(g)
      ensures exists i: nat :: i <= |s| && MatchesAt(s, i, g) && forall j: nat, h :: j < i ==> !MatchesAt(s, j, h)
    {
      RgbMatchFromSound(s, 0, g);
    }
    forall i: nat, g | i <= |s| && MatchesAt(s, i, g) ensures RgbMatch(s).Some? {
      RgbMatchFromComplete(s, 0, i, g);
    }
  }
}
