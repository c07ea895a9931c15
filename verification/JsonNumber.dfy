/** Numbers of the JSON codec: integers of up to fourteen digits are modelled,
    `%.14g` and `tonumber` on anything else are the caller's functions. */
module JsonNumber {
  import opened Bytes
  import opened Wrappers
  import opened JsonText

  /** `tonumber` on a word that is not a plain integer. */
  type Reader = bytes -> Option<real>

  /** `%.14g` on a number that is not an integer below 10^14 in magnitude. */
  type Formatter = real -> bytes

  const LIMIT: int := 100_000_000_000_000

  predicate AllDigits(s: bytes) { forall i :: 0 <= i < |s| ==> IsDigit(s[i]) }

  function Decimal(n: nat): (s: bytes)
    ensures s != [] && AllDigits(s)
  {
    if n < 10 then [48 + n] else Decimal(n / 10) + [48 + n % 10]
  }

  function DigitsValue(s: bytes): nat
    requires AllDigits(s)
  {
    if s == [] then 0 else DigitsValue(s[..|s| - 1]) * 10 + (s[|s| - 1] - 48)
  }

  function Power10(k: nat): int { if k == 0 then 1 else 10 * Power10(k - 1) }

  lemma {:induction false} DecimalReads(n: nat)
    ensures DigitsValue(Decimal(n)) == n
  {
    if n < 10 {
      assert Decimal(n)[..0] == [];
    } else {
      DecimalReads(n / 10);
      var s := Decimal(n);
      assert s[..|s| - 1] == Decimal(n / 10);
    }
  }

  lemma {:induction false} DecimalLength(n: nat, k: nat)
    requires k >= 1 && n < Power10(k)
    ensures |Decimal(n)| <= k
  {
    if n >= 10 {
      DecimalLength(n / 10, k - 1);
    }
  }

  predicate IsShortInt(r: real) { r == r.Floor as real && -LIMIT < r.Floor < LIMIT }

  function IntegerText(n: int): bytes {
    if n < 0 then [MINUS] + Decimal(-n) else Decimal(n)
  }

  /** The number branch of `encode`. */
  function NumberText(r: real, format: Formatter): bytes {
    if IsShortInt(r) then IntegerText(r.Floor) else format(r)
  }

  function Magnitude(w: bytes): bytes { if w != [] && w[0] == MINUS then w[1..] else w }

  /** Digits with an optional minus sign, few enough to be exact in a double. */
  predicate IsPlainInteger(w: bytes) {
    1 <= |Magnitude(w)| <= 15 && AllDigits(Magnitude(w))
  }

  function ToNumber(w: bytes, read: Reader): Option<real> {
    if IsPlainInteger(w) then
      var n: int := DigitsValue(Magnitude(w));
      Some((if w[0] == MINUS then -n else n) as real)
    else read(w)
  }

  predicate StartsNumber(b: byte) { IsDigit(b) || b == MINUS }

  lemma TenToThe14()
    ensures Power10(14) == LIMIT
  {
    assert Power10(4) == 10000;
    assert Power10(8) == 100000000;
    assert Power10(12) == 1000000000000;
  }

  /** An integer below 10^14 in magnitude is written as one word that reads back as it. */
  lemma NumberReads(r: real, format: Formatter, read: Reader)
    requires IsShortInt(r)
    ensures var w := NumberText(r, format);
      w != [] && StartsNumber(w[0]) && NoDelim(w) && ToNumber(w, read) == Some(r)
  {
    var n := r.Floor;
    var m := if n < 0 then -n else n;
    var w := IntegerText(n);
    DecimalReads(m);
    TenToThe14();
    DecimalLength(m, 14);
    assert Magnitude(w) == Decimal(m);
    assert NoDelim(Decimal(m));
  }

  // ----- integers by their grammar -----

  /** The digits of `int` in section 6 of RFC 8259: a zero alone, or a first digit from 1 to 9. */
  predicate IsDigits(d: bytes) {
    d != [] && (d[0] == 48 ==> |d| == 1) && forall i :: 0 <= i < |d| ==> 48 <= d[i] <= 57
  }

  predicate HasSign(s: bytes) { s != [] && s[0] == 45 }

  /** `[ minus ] int`. */
  predicate IsInt(s: bytes) { IsDigits(if HasSign(s) then s[1..] else s) }

  /** Each digit counts by its place. */
  function PlaceValue(d: bytes): int {
    if d == [] then 0 else (d[0] - 48) * Power10(|d| - 1) + PlaceValue(d[1..])
  }

  function IntValue(s: bytes): int { if HasSign(s) then -PlaceValue(s[1..]) else PlaceValue(s) }

  lemma {:induction false} PlaceAppend(d: bytes, x: byte)
    ensures PlaceValue(d + [x]) == 10 * PlaceValue(d) + (x - 48)
  {
    var s := d + [x];
    if d == [] {
      assert s[1..] == [];
    } else {
      assert s[1..] == d[1..] + [x];
      PlaceAppend(d[1..], x);
      var p := Power10(|d| - 1);
      assert Power10(|d|) == 10 * p;
      assert (d[0] - 48) * (10 * p) == 10 * ((d[0] - 48) * p);
    }
  }

  lemma {:induction false} PlaceIsValue(d: bytes)
    requires AllDigits(d)
    ensures DigitsValue(d) == PlaceValue(d)
  {
    if d != [] {
      var k := |d| - 1;
      assert d == d[..k] + [d[k]];
      PlaceIsValue(d[..k]);
      PlaceAppend(d[..k], d[k]);
    }
  }

  lemma {:induction false} DecimalIsDigits(n: nat)
    ensures IsDigits(Decimal(n)) && (n > 0 ==> Decimal(n)[0] != 48)
  {
    if n >= 10 { DecimalIsDigits(n / 10); }
  }

  /** A number has one decimal text without leading zeros. */
  lemma {:induction false} OneDecimal(d: bytes)
    requires IsDigits(d)
    ensures d == Decimal(DigitsValue(d)) && (d[0] != 48 ==> DigitsValue(d) > 0)
    decreases |d|
  {
    var k := |d| - 1;
    if k == 0 {
      assert d[..0] == [] && d == [d[0]];
    } else {
      OneDecimal(d[..k]);
      var v, x := DigitsValue(d[..k]), d[k] - 48;
      assert (v * 10 + x) / 10 == v && (v * 10 + x) % 10 == x;
      assert d == d[..k] + [d[k]];
    }
  }

  lemma IntegerIs(n: int)
    ensures IsInt(IntegerText(n)) && IntValue(IntegerText(n)) == n
  {
    var m := if n < 0 then -n else n;
    var d := Decimal(m);
    DecimalIsDigits(m);
    DecimalReads(m);
    PlaceIsValue(d);
    assert n < 0 ==> IntegerText(n)[1..] == d;
  }

  lemma OneInteger(s: bytes)
    requires IsInt(s)
    ensures s == IntegerText(IntValue(s)) || s == [45, 48]
  {
    var d := if HasSign(s) then s[1..] else s;
    PlaceIsValue(d);
    OneDecimal(d);
    if HasSign(s) { assert s == [45] + d; }
    if d[0] == 48 { assert d == [48]; }
  }

  /** What `encode` prints for an integer below 10^14 in magnitude is an integer
      of the grammar that denotes it, and the only one, but for a minus sign
      before a zero. Any other number goes to the library. */
  lemma PrintsInteger(n: int, format: Formatter)
    requires -100_000_000_000_000 < n < 100_000_000_000_000
    ensures var s := NumberText(n as real, format); IsInt(s) && IntValue(s) == n
    ensures forall s :: IsInt(s) && IntValue(s) == n ==> s == NumberText(n as real, format) || (n == 0 && s == [45, 48])
  {
    IsShort(n);
    IntegerIs(n);
    MinusZero();
    hide IntegerText, IsInt, IntValue, IsShortInt;
    forall s | IsInt(s) && IntValue(s) == n ensures s == IntegerText(n) || (n == 0 && s == [45, 48]) {
      OneInteger(s);
    }
  }

  lemma IsShort(n: int)
    requires -100_000_000_000_000 < n < 100_000_000_000_000
    ensures IsShortInt(n as real) && (n as real).Floor == n
  {
  }

  lemma MinusZero()
    ensures IntValue([45, 48]) == 0
  {
    assert [45, 48][1..] == [48] && [48][1..] == [];
  }

  lemma PrintsOther(r: real, format: Formatter)
    requires r != r.Floor as real || r.Floor <= -100_000_000_000_000 || r.Floor >= 100_000_000_000_000
    ensures NumberText(r, format) == format(r)
  {
  }

  /** A word of a sign and 1 to 15 digits is read as the integer it denotes,
      leading zeros or not; `tonumber` decides about any other word. */
  lemma ReadsInteger(w: bytes, read: Reader)
    ensures var d := if HasSign(w) then w[1..] else w;
      ToNumber(w, read) ==
        if 1 <= |d| <= 15 && forall i :: 0 <= i < |d| ==> 48 <= d[i] <= 57 then Some(IntValue(w) as real) else read(w)
  {
    var d := if HasSign(w) then w[1..] else w;
    assert Magnitude(w) == d;
    if AllDigits(d) { PlaceIsValue(d); }
  }
}
