/** String escapes of the JSON codec: writing, reading, and what a quoted text means. */
module JsonString {
  import opened Bytes
  import opened Wrappers
  import opened JsonText
  import opened Utf8

  // ----- hexadecimal digits -----

  predicate IsHex(b: byte) { IsDigit(b) || 'a' as int <= b <= 'f' as int || 'A' as int <= b <= 'F' as int }

  function HexValue(b: byte): (v: nat)
    requires IsHex(b)
    ensures v < 16
  {
    if IsDigit(b) then b - 48 else if b >= 97 then b - 87 else b - 55
  }

  predicate IsHex4(s: bytes) { |s| == 4 && IsHex(s[0]) && IsHex(s[1]) && IsHex(s[2]) && IsHex(s[3]) }

  /** `tonumber(s, 16)` on four digits. */
  function HexNumber(s: bytes): (n: nat)
    requires IsHex4(s)
    ensures n <= 0xffff
  {
    HexValue(s[0]) * 4096 + HexValue(s[1]) * 256 + HexValue(s[2]) * 16 + HexValue(s[3])
  }

  const LOWER_DIGITS: string := "0123456789abcdef"
  const UPPER_DIGITS: string := "0123456789ABCDEF"

  /** `b` is the digit for `v`, in either letter case. */
  predicate IsDigitFor(b: byte, v: int) {
    0 <= v < 16 && (b == LOWER_DIGITS[v] as int || b == UPPER_DIGITS[v] as int)
  }

  /** Four digits, the most significant first, that stand for `n`. */
  predicate Digits4(s: bytes, n: int) {
    && |s| == 4 && IsDigitFor(s[0], n / 4096) && IsDigitFor(s[1], n / 256 % 16)
    && IsDigitFor(s[2], n / 16 % 16) && IsDigitFor(s[3], n % 16)
  }

  lemma DigitTable(v: nat)
    requires v < 16
    ensures LOWER_DIGITS[v] as int == if v < 10 then 48 + v else 87 + v
    ensures UPPER_DIGITS[v] as int == if v < 10 then 48 + v else 55 + v
  {
    if v < 8 {
      if v == 0 {} else if v == 1 {} else if v == 2 {} else if v == 3 {}
      else if v == 4 {} else if v == 5 {} else if v == 6 {} else {}
    } else {
      if v == 8 {} else if v == 9 {} else if v == 10 {} else if v == 11 {}
      else if v == 12 {} else if v == 13 {} else if v == 14 {} else {}
    }
  }

  /** The bytes taken as digits are the sixteen digits, and each has its own value. */
  lemma HexValueIff(b: byte, v: int)
    ensures IsHex(b) && HexValue(b) == v <==> IsDigitFor(b, v)
  {
    if 0 <= v < 16 { DigitTable(v); }
  }

  /** Four digits are read as the number they stand for. */
  lemma HexNumberIff(s: bytes, n: int)
    ensures IsHex4(s) && HexNumber(s) == n <==> Digits4(s, n)
  {
    if |s| == 4 {
      HexValueIff(s[0], n / 4096);
      HexValueIff(s[1], n / 256 % 16);
      HexValueIff(s[2], n / 16 % 16);
      HexValueIff(s[3], n % 16);
      hide HexValue, IsHex, IsDigitFor;
      if IsHex4(s) {
        DigitsOf(HexValue(s[0]), HexValue(s[1]), HexValue(s[2]), HexValue(s[3]));
      }
      PartsOf(n);
    }
  }

  lemma DigitsOf(a: nat, b: nat, c: nat, d: nat)
    requires a < 16 && b < 16 && c < 16 && d < 16
    ensures var n := a * 4096 + b * 256 + c * 16 + d;
      n / 4096 == a && n / 256 % 16 == b && n / 16 % 16 == c && n % 16 == d
  {
    var n := a * 4096 + b * 256 + c * 16 + d;
    assert n / 16 == a * 256 + b * 16 + c && n / 256 == a * 16 + b && n / 4096 == a;
  }

  lemma PartsOf(n: int)
    ensures n == n / 4096 * 4096 + n / 256 % 16 * 256 + n / 16 % 16 * 16 + n % 16
  {
    var a := n / 16;
    assert n / 256 == a / 16 && n / 4096 == a / 16 / 16;
  }

  /** A lower-case digit of `%04x`. */
  function HexDigit(v: nat): byte
    requires v < 16
  {
    if v < 10 then 48 + v else 87 + v
  }

  // ----- one escape or character -----

  /** The pattern `^[dD][89aAbB]%x%x`. */
  predicate IsHigh(s: bytes) {
    IsHex4(s) && (s[0] == 'd' as int || s[0] == 'D' as int) &&
    (s[1] == '8' as int || s[1] == '9' as int || s[1] == 'a' as int || s[1] == 'A' as int
     || s[1] == 'b' as int || s[1] == 'B' as int)
  }

  /** The pattern of two escapes of which the first is a high surrogate. */
  predicate IsPair(s: bytes) {
    |s| == 10 && IsHigh(s[..4]) && s[4] == BACKSLASH && s[5] == LETTER_U && IsHex4(s[6..])
  }

  /** The length of the text the two patterns match at the front of `s`; 0 for none. */
  function MatchUnicode(s: bytes): (n: nat)
    ensures n <= |s|
    ensures n == 10 ==> IsPair(s[..10])
    ensures n == 4 ==> IsHex4(s[..4])
    ensures n == 0 || n == 4 || n == 10
  {
    if |s| >= 10 && IsPair(s[..10]) then 10
    else if |s| >= 4 && IsHex4(s[..4]) then 4
    else 0
  }

  /** `parse_unicode_escape`. */
  function UnicodeEscape(hex: bytes): Result<bytes>
    requires IsHex4(hex) || IsPair(hex)
  {
    if |hex| == 10 then
      var n1, n2 := HexNumber(hex[..4]), HexNumber(hex[6..]);
      CodepointToUtf8(HighBounds(hex[..4], n2); (n1 - 0xd800) * 0x400 + (n2 - 0xdc00) + 0x10000)
    else CodepointToUtf8(HexNumber(hex))
  }

  /** The first pattern picks out exactly the high surrogates. */
  lemma IsHighMeans(s: bytes)
    requires IsHex4(s)
    ensures IsHigh(s) <==> 0xd800 <= HexNumber(s) <= 0xdbff
  {
  }

  lemma HighBounds(s: bytes, low: nat)
    requires IsHigh(s)
    ensures (HexNumber(s) - 0xd800) * 0x400 + (low - 0xdc00) + 0x10000 >= 0
  {
    IsHighMeans(s);
  }

  predicate IsEscapeLetter(c: byte) {
    c in {'\\' as int, '/' as int, '"' as int, 'b' as int, 'f' as int, 'n' as int, 'r' as int, 't' as int}
  }

  /** `escape_char_map_inv`. */
  function Unescape(c: byte): byte
    requires IsEscapeLetter(c)
  {
    if c == 'b' as int then 8
    else if c == 'f' as int then 12
    else if c == 'n' as int then 10
    else if c == 'r' as int then 13
    else if c == 't' as int then 9
    else c
  }

  /** What one round of the loop in `parse_string` meets. */
  datatype Step = End | Bad | Take(len: nat, out: bytes)

  function NextStep(s: bytes): (r: Step)
    ensures r.Take? ==> 0 < r.len <= |s|
    ensures r.End? ==> s != []
  {
    if s == [] || s[0] < 32 then Bad
    else if s[0] == BACKSLASH then
      if |s| < 2 then Bad
      else if s[1] == LETTER_U then
        var n := MatchUnicode(s[2..]);
        if n == 0 then Bad
        else
          match UnicodeEscape(s[2..][..n])
          case Success(u) => Take(2 + n, u)
          case Failure => Bad
      else if IsEscapeLetter(s[1]) then Take(2, [Unescape(s[1])])
      else Bad
    else if s[0] == QUOTE then End
    else Take(1, [s[0]])
  }

  /** The text after an opening quote, up to and including the closing one. */
  function ReadChars(s: bytes): (r: Parsed<bytes>)
    ensures r.Found? ==> 0 < r.len <= |s|
    decreases |s|
  {
    match NextStep(s)
    case End => Found([], 1)
    case Bad => Error
    case Take(n, out) => After(out, n, ReadChars(s[n..]))
  }

  /** Puts `out`, read from `n` bytes, in front of what was read behind it. */
  function After(out: bytes, n: nat, r: Parsed<bytes>): Parsed<bytes> {
    if r.Error? then Error else Found(out + r.value, n + r.len)
  }

  /** `parse_string` at the front of `s`. */
  function ReadString(s: bytes): (r: Parsed<bytes>)
    requires s != []
    ensures r.Found? ==> 0 < r.len <= |s|
  {
    After([], 1, ReadChars(s[1..]))
  }

  // ----- the loop -----

  lemma AfterTwice(a: bytes, m: nat, b: bytes, n: nat, r: Parsed<bytes>)
    ensures After(a, m, After(b, n, r)) == After(a + b, m + n, r)
  {
    if r.Found? { assert a + (b + r.value) == (a + b) + r.value; }
  }

  /** A round of the loop at position `j`, without slicing the text. */
  lemma StepAt(str: bytes, j: nat)
    requires j < |str|
    ensures str[j] < 32 ==> NextStep(str[j..]).Bad?
    ensures str[j] == QUOTE ==> NextStep(str[j..]).End?
    ensures str[j] >= 32 && str[j] != QUOTE && str[j] != BACKSLASH ==> NextStep(str[j..]) == Take(1, [str[j]])
    ensures str[j] == BACKSLASH ==> NextStep(str[j..]) == EscapeAt(str, j + 1)
    ensures NextStep(str[j..]).Bad? ==> ReadChars(str[j..]).Error?
    ensures NextStep(str[j..]).End? ==> ReadChars(str[j..]) == Found([], 1)
  {
    var s := str[j..];
    if |s| >= 2 { assert s[1] == str[j + 1] && s[2..] == str[j + 2..]; }
  }

  function EscapeAt(str: bytes, j: nat): (r: Step)
    requires 0 < j <= |str|
  {
    if j == |str| then Bad
    else if str[j] == LETTER_U then
      var n := MatchUnicode(str[j + 1..]);
      if n == 0 then Bad
      else
        match UnicodeEscape(str[j + 1..][..n])
        case Success(u) => Take(2 + n, u)
        case Failure => Bad
    else if IsEscapeLetter(str[j]) then Take(2, [Unescape(str[j])])
    else Bad
  }

  /** One round moves what it read in front of the rest. */
  lemma RoundAt(str: bytes, j: nat, done: bytes, m: nat, n: nat, out: bytes)
    requires j < |str| && NextStep(str[j..]) == Take(n, out)
    ensures j + n <= |str|
    ensures After(done, m, ReadChars(str[j..])) == After(done + out, m + n, ReadChars(str[j + n..]))
  {
    assert str[j..][n..] == str[j + n..];
    AfterTwice(done, m, out, n, ReadChars(str[j + n..]));
  }

  /** `parse_string`: collects plain stretches between escapes. The result
      carries the position just past the closing quote. */
  method ParseString(str: bytes, i: nat) returns (r: Parsed<bytes>)
    requires i < |str|
    ensures r == Shift(i, ReadString(str[i..]))
  {
    hide ReadChars, NextStep, MatchUnicode, UnicodeEscape;
    var res: bytes := [];
    var j := i + 1;
    var k := j;
    ghost var goal := ReadString(str[i..]);
    ghost var done: bytes := [];
    assert str[i..][1..] == str[j..];
    while j < |str|
      invariant i < k <= j <= |str|
      invariant done == res + str[k..j]
      invariant goal == After(done, j - i, ReadChars(str[j..]))
    {
      var x := str[j];
      ghost var n, out := 1, [x];
      ghost var j0 := j;
      StepAt(str, j);
      if x < 32 {
        return Error;
      } else if x == BACKSLASH {
        res := res + str[k..j];
        j := j + 1;
        if j < |str| && str[j] == LETTER_U {
          var len := MatchUnicode(str[j + 1..]);
          if len == 0 {
            return Error;
          }
          var u := UnicodeEscape(str[j + 1..][..len]);
          if u.Failure? {
            return Error;
          }
          res := res + u.value;
          j := j + len;
          n, out := 2 + len, u.value;
        } else {
          if j == |str| || !IsEscapeLetter(str[j]) {
            return Error;
          }
          res := res + [Unescape(str[j])];
          n, out := 2, [Unescape(str[j])];
        }
        k := j + 1;
      } else if x == QUOTE {
        res := res + str[k..j];
        assert done + [] == res;
        return Found(res, j + 1);
      }
      j := j + 1;
      RoundAt(str, j0, done, j0 - i, n, out);
      done := done + out;
    }
    assert str[j..] == [];
    return Error;
  }
}
