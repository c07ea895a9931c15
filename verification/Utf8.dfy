/** UTF-8 output of the JSON codec, against an independent decoder. */
module Utf8 {
  import opened Bytes
  import opened Wrappers

  /** A Unicode scalar value: a code point that is not a surrogate. */
  predicate IsScalar(n: int) { 0 <= n < 0xd800 || 0xe000 <= n <= 0x10ffff }

  /** `codepoint_to_utf8`: fails above the last code point. */
  function CodepointToUtf8(n: nat): Result<bytes> {
    if n <= 0x7f then Success([n])
    else if n <= 0x7ff then Success([n / 64 + 192, n % 64 + 128])
    else if n <= 0xffff then Success([n / 4096 + 224, n % 4096 / 64 + 128, n % 64 + 128])
    else if n <= 0x10ffff then
      Success([n / 262144 + 240, n % 262144 / 4096 + 128, n % 4096 / 64 + 128, n % 64 + 128])
    else Failure
  }

  predicate IsTail(b: byte) { 0x80 <= b <= 0xbf }

  /** The number with the four base-64 digits `a`, `b`, `c`, `d`. */
  function Base64(a: int, b: int, c: int, d: int): int { a * 262144 + b * 4096 + c * 64 + d }

  /** The first character of `s` by the syntax of RFC 3629, section 4, with
      its length: over-long forms and surrogates are no characters. */
  function FirstChar(s: bytes): Option<(int, nat)> {
    if |s| >= 1 && s[0] <= 0x7f then Some((s[0] as int, 1))
    else if |s| >= 2 && 0xc2 <= s[0] <= 0xdf && IsTail(s[1]) then
      Some((Base64(0, 0, s[0] - 0xc0, s[1] - 0x80), 2))
    else if |s| >= 3 && 0xe0 <= s[0] <= 0xef && IsTail(s[1]) && IsTail(s[2])
            && (s[0] == 0xe0 ==> 0xa0 <= s[1]) && (s[0] == 0xed ==> s[1] <= 0x9f) then
      Some((Base64(0, s[0] - 0xe0, s[1] - 0x80, s[2] - 0x80), 3))
    else if |s| >= 4 && 0xf0 <= s[0] <= 0xf4 && IsTail(s[1]) && IsTail(s[2]) && IsTail(s[3])
            && (s[0] == 0xf0 ==> 0x90 <= s[1]) && (s[0] == 0xf4 ==> s[1] <= 0x8f) then
      Some((Base64(s[0] - 0xf0, s[1] - 0x80, s[2] - 0x80, s[3] - 0x80), 4))
    else None
  }

  lemma DivideBy64(q: int, r: int)
    requires 0 <= r < 64
    ensures (64 * q + r) / 64 == q && (64 * q + r) % 64 == r
  {
  }

  lemma DivideBy4096(q: int, r: int)
    requires 0 <= r < 4096
    ensures (4096 * q + r) / 4096 == q && (4096 * q + r) % 4096 == r
  {
  }

  lemma DivideBy262144(q: int, r: int)
    requires 0 <= r < 262144
    ensures (262144 * q + r) / 262144 == q && (262144 * q + r) % 262144 == r
  {
  }

  /** Division takes the four digits apart again. */
  lemma SplitsDigits(a: nat, b: int, c: int, d: int)
    requires 0 <= b < 64 && 0 <= c < 64 && 0 <= d < 64
    ensures var n := Base64(a, b, c, d);
      n / 262144 == a && n % 262144 / 4096 == b && n % 4096 / 64 == c && n % 64 == d
  {
    var n, t := Base64(a, b, c, d), 64 * c + d;
    assert n / 262144 == a && n % 262144 == 4096 * b + t by { DivideBy262144(a, 4096 * b + t); }
    DivideBy4096(b, t);
    assert n % 4096 == t by { assert n == 4096 * (64 * a + b) + t; DivideBy4096(64 * a + b, t); }
    DivideBy64(c, d);
    assert n % 64 == d by { assert n == 64 * (4096 * a + 64 * b + c) + d; DivideBy64(4096 * a + 64 * b + c, d); }
  }

  lemma JoinsDigits(n: nat)
    ensures n == Base64(n / 262144, n % 262144 / 4096, n % 4096 / 64, n % 64)
  {
    var a, r := n / 262144, n % 262144;
    var b, t := r / 4096, r % 4096;
    SplitsDigits(a, b, t / 64, t % 64);
  }

  /** The decoder looks at no byte behind the character. */
  lemma FirstCharOnly(u: bytes, post: bytes)
    requires FirstChar(u).Some?
    ensures FirstChar(u + post) == FirstChar(u)
  {
    assert forall k :: 0 <= k < |u| ==> (u + post)[k] == u[k];
  }

  /** Every scalar value is written in its shortest form: the decoder reads it
      back from the front of any text and stops just after it. */
  lemma ReadsBack(n: nat, post: bytes)
    requires IsScalar(n)
    ensures CodepointToUtf8(n).Success?
    ensures var u := CodepointToUtf8(n).value; FirstChar(u + post) == Some((n, |u|))
  {
    var u := CodepointToUtf8(n).value;
    JoinsDigits(n);
    if n > 0xffff {
      assert 0x90 <= u[1] || u[0] > 0xf0;
    } else if n > 0x7ff {
      assert n / 262144 == 0 && n % 262144 == n;
    } else if n > 0x7f {
      assert n % 4096 == n;
    }
    FirstCharOnly(u, post);
  }

  /** Conversely, whatever the decoder reads is what the encoder writes. */
  lemma WritesBack(s: bytes)
    requires FirstChar(s).Some?
    ensures var (n, len) := FirstChar(s).value;
      IsScalar(n) && len <= |s| && CodepointToUtf8(n) == Success(s[..len])
  {
    var (n, len) := FirstChar(s).value;
    if len == 2 {
      SplitsDigits(0, 0, s[0] - 0xc0, s[1] - 0x80);
      assert s[..len] == [s[0], s[1]];
    } else if len == 3 {
      SplitsDigits(0, s[0] - 0xe0, s[1] - 0x80, s[2] - 0x80);
      assert s[..len] == [s[0], s[1], s[2]];
    } else if len == 4 {
      SplitsDigits(s[0] - 0xf0, s[1] - 0x80, s[2] - 0x80, s[3] - 0x80);
      assert s[..len] == [s[0], s[1], s[2], s[3]];
    } else {
      assert s[..len] == [s[0]];
    }
  }

  /** Distinct scalar values have outputs of which neither starts the other. */
  lemma PrefixFree(m: nat, n: nat)
    requires IsScalar(m) && IsScalar(n)
    requires CodepointToUtf8(m).Success? && CodepointToUtf8(n).Success?
    requires CodepointToUtf8(m).value <= CodepointToUtf8(n).value
    ensures m == n
  {
    var u, w := CodepointToUtf8(m).value, CodepointToUtf8(n).value;
    ReadsBack(m, w[|u|..]);
    ReadsBack(n, []);
    assert u + w[|u|..] == w == w + [];
  }

  /** A lead byte for tails of six bits each, and the number they carry. */
  predicate Carries(u: bytes, lead: int, n: int) {
    && u != [] && lead <= u[0]
    && (forall i :: 1 <= i < |u| ==> 0x80 <= u[i] <= 0xbf)
    && n == match |u|
            case 2 => (u[0] - lead) * 64 + (u[1] as int - 0x80)
            case 3 => (u[0] - lead) * 4096 + (u[1] as int - 0x80) * 64 + (u[2] as int - 0x80)
            case 4 =>
              (u[0] - lead) * 262144 + (u[1] as int - 0x80) * 4096 + (u[2] as int - 0x80) * 64 + (u[3] as int - 0x80)
            case _ => u[0] as int
  }

  /** Every code point, surrogates too, is written with the length its size asks
      for; there is no output above the last code point. */
  lemma CarriesBits(n: nat)
    ensures CodepointToUtf8(n).Success? <==> n <= 0x10ffff
    ensures n <= 0x7f ==> CodepointToUtf8(n) == Success([n])
    ensures 0x80 <= n <= 0x10ffff ==> var u := CodepointToUtf8(n).value;
      && |u| == (if n <= 0x7ff then 2 else if n <= 0xffff then 3 else 4)
      && Carries(u, if n <= 0x7ff then 0xc0 else if n <= 0xffff then 0xe0 else 0xf0, n)
  {
    JoinsDigits(n);
    if n <= 0xffff { assert n / 262144 == 0 && n % 262144 == n; }
    if n <= 0x7ff { assert n % 4096 == n; }
  }
}
