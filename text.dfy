/**
 * The JavaScript string built-ins the core relies on: the character classes of its
 * regular expressions, case mapping (default and Turkish locale), `trim`, `split(' ')`,
 * `join(' ')`, `parseInt` and the decimal rendering of integers.
 *
 * Case mapping covers ASCII, Latin-1, the Turkish letters and the letters these map to
 * (Ÿ, and the Greek capital and small mu); every other character maps to itself.
 */
module Text {
  import opened Wrappers

  // ---------------------------------------------------------------------------
  // Character classes of the regular expressions /[A-Z]/, /[a-z]/, /\d/, /\W/

  predicate IsAsciiUpper(c: char) { 'A' <= c <= 'Z' }
  predicate IsAsciiLower(c: char) { 'a' <= c <= 'z' }
  predicate IsDigit(c: char) { '0' <= c <= '9' }

  /** `\w` matches exactly [A-Za-z0-9_]; `\W` is its complement. */
  predicate IsWordChar(c: char) { IsAsciiUpper(c) || IsAsciiLower(c) || IsDigit(c) || c == '_' }

  /** The WhiteSpace and LineTerminator code points that `trim` and `parseInt` skip. */
  predicate IsJsSpace(c: char) {
    c == '\t' || c == '\n' || c == '\U{000B}' || c == '\U{000C}' || c == '\r' || c == ' '
    || c == '\U{00A0}' || c == '\U{1680}' || ('\U{2000}' <= c <= '\U{200A}')
    || c == '\U{2028}' || c == '\U{2029}' || c == '\U{202F}' || c == '\U{205F}'
    || c == '\U{3000}' || c == '\U{FEFF}'
  }

  // ---------------------------------------------------------------------------
  // Case mapping

  /** LATIN SMALL LETTER SHARP S, whose upper case is the two letters "SS". */
  const SharpS: char := '\U{00DF}'

  /** COMBINING DOT ABOVE, which the Turkish lower-casing drops after a capital I. */
  const DotAbove: char := '\U{0307}'

  /** Upper-case letters whose lower-case form is one character in every locale
      (the dotted capital I is handled by the callers). */
  function LowerCommon(c: char): char {
    if IsAsciiUpper(c) then (c as int + 32) as char
    else if '\U{00C0}' <= c <= '\U{00DE}' && c != '\U{00D7}' then (c as int + 32) as char
    else if c == '\U{011E}' then '\U{011F}'   // G with breve
    else if c == '\U{015E}' then '\U{015F}'   // S with cedilla
    else if c == '\U{0178}' then '\U{00FF}'   // Y with diaeresis
    else if c == '\U{039C}' then '\U{03BC}'   // Greek capital mu
    else c
  }

  /** `toLocaleLowerCase('tr-TR')` of a lone character: I becomes dotless i, dotted I becomes i. */
  function TrLower(c: char): char {
    if c == 'I' then '\U{0131}'
    else if c == '\U{0130}' then 'i'
    else LowerCommon(c)
  }

  /**
   * The first character of `toLocaleUpperCase('tr-TR')` of one character, which is the whole
   * upper case for every character but sharp s: i becomes dotted I, dotless i becomes I, and
   * the micro sign takes the Greek capital mu.
   */
  function TrUpperFirst(c: char): char {
    if c == SharpS then 'S'
    else if c == 'i' then '\U{0130}'
    else if c == '\U{0131}' then 'I'
    else if IsAsciiLower(c) then (c as int - 32) as char
    else if '\U{00E0}' <= c <= '\U{00FE}' && c != '\U{00F7}' then (c as int - 32) as char
    else if c == '\U{00FF}' then '\U{0178}'
    else if c == '\U{00B5}' || c == '\U{03BC}' then '\U{039C}'
    else if c == '\U{011F}' then '\U{011E}'
    else if c == '\U{015F}' then '\U{015E}'
    else c
  }

  /** `toLocaleUpperCase('tr-TR')` of one character: sharp s becomes "SS", every other one character. */
  function TrUpper(c: char): (r: string)
    ensures c == SharpS ==> r == "SS"
    ensures c != SharpS ==> |r| == 1 && r[0] == TrUpperFirst(c)
  {
    if c == SharpS then "SS" else [TrUpperFirst(c)]
  }

  /**
   * `toLocaleLowerCase('tr-TR')` of a string: a capital I directly followed by a combining
   * dot above becomes i and the dot is dropped; every other character is lowered on its own.
   */
  function TrLowerString(s: string): (r: string)
    ensures |r| <= |s|
  {
    if s == [] then []
    else if |s| >= 2 && s[0] == 'I' && s[1] == DotAbove then "i" + TrLowerString(s[2..])
    else [TrLower(s[0])] + TrLowerString(s[1..])
  }

  /** No capital I is directly followed by a combining dot above. */
  predicate NoDottedI(s: string) {
    forall i :: 0 <= i < |s| - 1 && s[i] == 'I' ==> s[i + 1] != DotAbove
  }

  /** Without an I and a dot above side by side, the string is lowered character by character. */
  lemma {:induction false} TrLowerStringAt(s: string)
    requires NoDottedI(s)
    ensures |TrLowerString(s)| == |s|
    ensures forall i :: 0 <= i < |s| ==> TrLowerString(s)[i] == TrLower(s[i])
  {
    if s != [] {
      var t := s[1..];
      assert NoDottedI(t) by {
        forall i | 0 <= i < |t| - 1 && t[i] == 'I' ensures t[i + 1] != DotAbove {
          assert s[i + 1] == 'I';
        }
      }
      TrLowerStringAt(t);
    }
  }

  /** I and the dot above together lower to a single i. */
  lemma TrLowerDottedI(rest: string)
    ensures TrLowerString(['I', DotAbove] + rest) == "i" + TrLowerString(rest)
  {
    assert (['I', DotAbove] + rest)[2..] == rest;
  }

  /** A lowered string holds no capital I, and each of its characters is its own lower case. */
  lemma {:induction false} TrLowerStringLowered(s: string)
    ensures forall i :: 0 <= i < |TrLowerString(s)| ==>
      TrLowerString(s)[i] != 'I' && TrLower(TrLowerString(s)[i]) == TrLowerString(s)[i]
  {
    if s != [] {
      if |s| >= 2 && s[0] == 'I' && s[1] == DotAbove {
        TrLowerStringLowered(s[2..]);
      } else {
        TrLowerStringLowered(s[1..]);
        TrLowerIdempotent(s[0]);
      }
    }
  }

  /** Lowering a lowered string changes nothing. */
  lemma TrLowerStringIdempotent(s: string)
    ensures TrLowerString(TrLowerString(s)) == TrLowerString(s)
  {
    var l := TrLowerString(s);
    TrLowerStringLowered(s);
    TrLowerStringAt(l);
  }

  /** Lowering keeps the number of spaces. */
  lemma {:induction false} TrLowerStringSpaces(s: string)
    ensures CountChar(TrLowerString(s), ' ') == CountChar(s, ' ')
  {
    if s != [] {
      if |s| >= 2 && s[0] == 'I' && s[1] == DotAbove {
        TrLowerStringSpaces(s[2..]);
        assert s[1..][1..] == s[2..];
        CountCharAppend("i", TrLowerString(s[2..]), ' ');
      } else {
        TrLowerStringSpaces(s[1..]);
        CountCharAppend([TrLower(s[0])], TrLowerString(s[1..]), ' ');
        TrCaseKeepsSpace(s[0]);
      }
    }
  }

  /** `toLowerCase()` (no locale) of one character: dotted capital I becomes i + combining dot. */
  function DefaultLowerChar(c: char): (r: string)
    ensures |r| >= 1
  {
    if c == '\U{0130}' then "i\U{0307}" else [LowerCommon(c)]
  }

  /** `toLowerCase()` of a string. */
  function DefaultLower(s: string): string {
    if s == [] then [] else DefaultLowerChar(s[0]) + DefaultLower(s[1..])
  }

  lemma TrLowerIdempotent(c: char)
    ensures TrLower(TrLower(c)) == TrLower(c)
  {
  }

  /**
   * Upper-casing, lowering and upper-casing again gives the first upper case. Lowering the
   * upper case need not give the character back: the micro sign comes back as the Greek
   * small mu, and sharp s as s.
   */
  lemma TrUpperLowerUpper(c: char)
    ensures TrUpperFirst(TrLower(TrUpperFirst(c))) == TrUpperFirst(c)
  {
  }

  /** Only a dotless i or a capital I upper-cases to I. */
  lemma TrUpperToI(c: char)
    ensures TrUpperFirst(c) == 'I' <==> c == '\U{0131}' || c == 'I'
  {
  }

  lemma TrCaseKeepsSpace(c: char)
    ensures TrLower(c) == ' ' <==> c == ' '
    ensures TrUpperFirst(c) == ' ' <==> c == ' '
    ensures TrLower(c) == SharpS <==> c == SharpS
    ensures TrUpperFirst(c) != SharpS
  {
  }

  // ---------------------------------------------------------------------------
  // trim

  function TrimStart(s: string): (r: string)
    ensures |r| <= |s| && r == s[|s| - |r|..]
    ensures r == [] || !IsJsSpace(r[0])
    ensures forall i :: 0 <= i < |s| - |r| ==> IsJsSpace(s[i])
  {
    if s != [] && IsJsSpace(s[0]) then TrimStart(s[1..]) else s
  }

  function TrimEnd(s: string): (r: string)
    ensures |r| <= |s| && r == s[..|r|]
    ensures r == [] || !IsJsSpace(r[|r| - 1])
    ensures forall i :: |r| <= i < |s| ==> IsJsSpace(s[i])
  {
    if s != [] && IsJsSpace(s[|s| - 1]) then TrimEnd(s[..|s| - 1]) else s
  }

  /** `String.prototype.trim`. */
  function Trim(s: string): string {
    TrimEnd(TrimStart(s))
  }

  /** Trim removes a run of white space at each end and nothing else. */
  lemma TrimSlice(s: string)
    ensures exists i, j ::
              && 0 <= i <= j <= |s| && Trim(s) == s[i..j]
              && (forall k :: 0 <= k < i ==> IsJsSpace(s[k]))
              && (forall k :: j <= k < |s| ==> IsJsSpace(s[k]))
  {
    var t := TrimStart(s);
    var e := TrimEnd(t);
    var i := |s| - |t|;
    TrimEndTail(s, t, e, i);
    var j := i + |e|;
    assert Trim(s) == s[i..j];
  }

  /** The characters after the trimmed end of a suffix are white space. */
  lemma TrimEndTail(s: string, t: string, e: string, i: int)
    requires 0 <= i <= |s| && t == s[i..]
    requires |e| <= |t| && e == t[..|e|]
    requires forall k :: |e| <= k < |t| ==> IsJsSpace(t[k])
    ensures e == s[i..i + |e|]
    ensures forall k :: i + |e| <= k < |s| ==> IsJsSpace(s[k])
  {
    forall k | i + |e| <= k < |s| ensures IsJsSpace(s[k]) {
      assert s[k] == t[k - i];
    }
  }

  /** A trimmed string neither starts nor ends with white space. */
  lemma TrimEnds(s: string)
    ensures Trim(s) == [] || (!IsJsSpace(Trim(s)[0]) && !IsJsSpace(Trim(s)[|Trim(s)| - 1]))
  {
    var t := TrimStart(s);
    var e := TrimEnd(t);
    if e != [] {
      assert e[0] == t[0];
    }
  }

  /** The trimmed string is empty exactly when every character is white space. */
  lemma TrimEmptyIff(s: string)
    ensures Trim(s) == [] <==> forall k :: 0 <= k < |s| ==> IsJsSpace(s[k])
  {
    var t := TrimStart(s);
    if Trim(s) != [] {
      assert t != [] && !IsJsSpace(s[|s| - |t|]);
    }
  }

  // ---------------------------------------------------------------------------
  // split(' ') and join(' ')

  /** `s.split(' ')`: pieces between single spaces; empty pieces are kept. */
  function SplitSpaces(s: string): (r: seq<string>)
    ensures |r| >= 1
  {
    if s == [] then [""]
    else if s[0] == ' ' then [""] + SplitSpaces(s[1..])
    else
      var rest := SplitSpaces(s[1..]);
      [[s[0]] + rest[0]] + rest[1..]
  }

  /** `pieces.join(' ')`. */
  function JoinSpaces(pieces: seq<string>): string
    requires |pieces| >= 1
  {
    if |pieces| == 1 then pieces[0] else pieces[0] + " " + JoinSpaces(pieces[1..])
  }

  function CountChar(s: string, c: char): nat {
    if s == [] then 0 else (if s[0] == c then 1 else 0) + CountChar(s[1..], c)
  }

  lemma {:induction false} CountCharAppend(a: string, b: string, c: char)
    ensures CountChar(a + b, c) == CountChar(a, c) + CountChar(b, c)
  {
    if a != [] {
      assert (a + b)[1..] == a[1..] + b;
      CountCharAppend(a[1..], b, c);
    } else {
      assert a + b == b;
    }
  }

  /** Joining the pieces of a split restores the string. */
  lemma {:induction false} JoinSplit(s: string)
    ensures JoinSpaces(SplitSpaces(s)) == s
  {
    if s != [] {
      JoinSplit(s[1..]);
      var rest := SplitSpaces(s[1..]);
      if s[0] != ' ' {
        JoinFirst([s[0]], rest);
        assert [s[0]] + s[1..] == s;
      }
    }
  }

  /** Splitting yields one more piece than there are spaces, and no piece holds a space. */
  lemma {:induction false} SplitPieces(s: string)
    ensures |SplitSpaces(s)| == CountChar(s, ' ') + 1
    ensures forall k :: 0 <= k < |SplitSpaces(s)| ==> ' ' !in SplitSpaces(s)[k]
  {
    if s != [] {
      SplitPieces(s[1..]);
      var rest := SplitSpaces(s[1..]);
      if s[0] != ' ' {
        var r := SplitSpaces(s);
        forall k | 0 <= k < |r| ensures ' ' !in r[k] {
          if k > 0 {
            assert r[k] == rest[k];
          }
        }
      }
    }
  }

  /** Prefixing the first piece prefixes the joined string. */
  lemma {:induction false} JoinFirst(a: string, pieces: seq<string>)
    requires |pieces| >= 1
    ensures JoinSpaces([a + pieces[0]] + pieces[1..]) == a + JoinSpaces(pieces)
  {
    var p := [a + pieces[0]] + pieces[1..];
    if |pieces| > 1 {
      assert p[1..] == pieces[1..];
    }
  }

  // ---------------------------------------------------------------------------
  // parseInt and decimal rendering

  function DigitValue(c: char): int
    requires IsDigit(c)
  {
    c as int - '0' as int
  }

  predicate IsHexDigit(c: char) { IsDigit(c) || 'a' <= c <= 'f' || 'A' <= c <= 'F' }

  function HexValue(c: char): int
    requires IsHexDigit(c)
  {
    if IsDigit(c) then DigitValue(c)
    else if 'a' <= c <= 'f' then c as int - 'a' as int + 10
    else c as int - 'A' as int + 10
  }

  /** The longest prefix of `s` made of characters satisfying `ok`. */
  function LeadingRun(s: string, ok: char -> bool): (r: string)
    ensures |r| <= |s| && r == s[..|r|]
    ensures forall k :: 0 <= k < |r| ==> ok(r[k])
    ensures |r| < |s| ==> !ok(s[|r|])
  {
    if s != [] && ok(s[0]) then [s[0]] + LeadingRun(s[1..], ok) else []
  }

  /** The value of a digit string read in `base` (10 or 16). */
  function ValueIn(base: int, d: string): int
    requires base == 10 || base == 16
    requires forall k :: 0 <= k < |d| ==> (if base == 10 then IsDigit(d[k]) else IsHexDigit(d[k]))
  {
    if d == [] then 0
    else
      var last := if base == 10 then DigitValue(d[|d| - 1]) else HexValue(d[|d| - 1]);
      ValueIn(base, d[..|d| - 1]) * base + last
  }

  /**
   * `parseInt(s)` with no radix: leading white space is skipped, one sign is read, a
   * `0x`/`0X` prefix selects base 16; the longest run of digits is read and the rest
   * ignored. `None` stands for NaN (no digit at all).
   */
  function ParseInt(s: string): Option<int> {
    ParseSigned(TrimStart(s))
  }

  /** `parseInt` after the white space: an optional sign, then the magnitude. */
  function ParseSigned(t: string): Option<int> {
    if t != [] && t[0] == '-' then Negate(ParseMagnitude(t[1..]))
    else if t != [] && t[0] == '+' then ParseMagnitude(t[1..])
    else ParseMagnitude(t)
  }

  function Negate(v: Option<int>): Option<int> {
    if v.Some? then Some(-v.value) else None
  }

  /** `parseInt` after the sign: hexadecimal after `0x`/`0X`, decimal otherwise. */
  function ParseMagnitude(u: string): Option<int> {
    if |u| >= 2 && u[0] == '0' && (u[1] == 'x' || u[1] == 'X') then
      var h := LeadingRun(u[2..], IsHexDigit);
      if h == [] then None else Some(ValueIn(16, h))
    else
      var d := LeadingRun(u, IsDigit);
      if d == [] then None else Some(ValueIn(10, d))
  }

  function DigitChar(n: int): (c: char)
    requires 0 <= n < 10
    ensures IsDigit(c) && DigitValue(c) == n
  {
    ('0' as int + n) as char
  }

  /** The decimal rendering of a natural number, without leading zeros. */
  function NatToString(n: nat): (r: string)
    ensures |r| >= 1 && forall k :: 0 <= k < |r| ==> IsDigit(r[k])
    ensures r[0] == '0' ==> n == 0
    ensures n < 10 ==> |r| == 1
  {
    if n < 10 then [DigitChar(n)] else NatToString(n / 10) + [DigitChar(n % 10)]
  }

  /** `String(n)` for an integer. */
  function IntToString(n: int): string {
    if n < 0 then "-" + NatToString(-n) else NatToString(n)
  }

  lemma {:induction false} NatToStringValue(n: nat)
    ensures ValueIn(10, NatToString(n)) == n
  {
    if n >= 10 {
      NatToStringValue(n / 10);
      var r := NatToString(n);
      assert r[..|r| - 1] == NatToString(n / 10);
    }
  }

  /** A string made only of digits is its own leading run of digits. */
  lemma {:induction false} LeadingRunAllDigits(d: string)
    requires forall k :: 0 <= k < |d| ==> IsDigit(d[k])
    ensures LeadingRun(d, IsDigit) == d
  {
    if d != [] {
      LeadingRunAllDigits(d[1..]);
      assert [d[0]] + d[1..] == d;
    }
  }

  /** A digit string without a leading zero is read as a decimal magnitude. */
  lemma ParseDigits(digits: string)
    requires |digits| >= 1 && forall k :: 0 <= k < |digits| ==> IsDigit(digits[k])
    requires |digits| >= 2 ==> digits[0] != '0'
    ensures ParseMagnitude(digits) == Some(ValueIn(10, digits))
  {
    LeadingRunAllDigits(digits);
  }

  /** Nothing is trimmed from a string that does not start with white space. */
  lemma NoLeadingSpace(s: string)
    requires s != [] && !IsJsSpace(s[0])
    ensures TrimStart(s) == s
  {
  }

  /** A digit string without a leading zero is read back in base 10. */
  lemma ParseDecimal(digits: string)
    requires |digits| >= 1 && forall k :: 0 <= k < |digits| ==> IsDigit(digits[k])
    requires |digits| >= 2 ==> digits[0] != '0'
    ensures ParseInt(digits) == Some(ValueIn(10, digits))
  {
    assert IsDigit(digits[0]);
    NoLeadingSpace(digits);
    assert ParseInt(digits) == ParseSigned(digits) == ParseMagnitude(digits);
    ParseDigits(digits);
  }

  /** The same digits after a minus sign are read back negated. */
  lemma {:induction false} ParseNegativeDecimal(digits: string)
    requires |digits| >= 1 && forall k :: 0 <= k < |digits| ==> IsDigit(digits[k])
    requires |digits| >= 2 ==> digits[0] != '0'
    ensures ParseInt("-" + digits) == Some(-ValueIn(10, digits))
  {
    var m := ParseMagnitude(digits);
    assert m == Some(ValueIn(10, digits)) by {
      ParseDigits(digits);
    }
    assert ParseInt("-" + digits) == Negate(m) by {
      ParseMinus(digits);
    }
  }

  /** A leading minus sign negates what follows it. */
  lemma ParseMinus(u: string)
    ensures ParseInt("-" + u) == Negate(ParseMagnitude(u))
  {
    var t := "-" + u;
    assert t[0] == '-' && t[1..] == u;
    NoLeadingSpace(t);
  }

  /** The decimal rendering of a natural number has no leading zero. */
  lemma NoLeadingZero(m: nat)
    ensures var r := NatToString(m); |r| >= 2 ==> r[0] != '0'
  {
  }

  /** The decimal rendering of a natural number is read back. */
  lemma ParseRendered(m: nat)
    ensures ParseInt(NatToString(m)) == Some(m)
  {
    var r := NatToString(m);
    NatToStringValue(m);
    NoLeadingZero(m);
    ParseDecimal(r);
  }

  /** A minus sign before the decimal rendering of a natural number is read back as its negation. */
  lemma ParseRenderedNegative(m: nat)
    ensures ParseInt("-" + NatToString(m)) == Some(-(m as int))
  {
    var r := NatToString(m);
    assert ValueIn(10, r) == m by {
      NatToStringValue(m);
    }
    assert |r| >= 2 ==> r[0] != '0' by {
      NoLeadingZero(m);
    }
    ParseNegativeDecimal(r);
  }

  /** `parseInt` reads back what `String` renders: the score fields round-trip. */
  lemma ParseIntRoundTrip(n: int)
    ensures ParseInt(IntToString(n)) == Some(n)
  {
    if n < 0 {
      ParseRenderedNegative(-n);
    } else {
      ParseRendered(n);
    }
  }


}
