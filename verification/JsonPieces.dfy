/** The grammar of quoted strings: the parser reads exactly the texts that
    spell a list of pieces, and the encoder spells every byte string. */
module JsonPieces {
  import opened Bytes
  import opened Wrappers
  import opened JsonText
  import opened JsonString
  import opened Utf8

  /** One character of a quoted text as it is spelled. */
  datatype Piece =
    | Raw(b: byte)
    | Short(letter: byte)
    | Unicode(hex: bytes)  // four digits, or a high surrogate, `\u` and four digits

  predicate PieceOk(p: Piece) {
    match p
    case Raw(b) => b >= 32 && b != QUOTE && b != BACKSLASH
    case Short(c) => IsEscapeLetter(c)
    case Unicode(hex) => (IsHex4(hex) || IsPair(hex)) && UnicodeEscape(hex).Success?
  }

  function WritePiece(p: Piece): bytes {
    match p
    case Raw(b) => [b]
    case Short(c) => [BACKSLASH, c]
    case Unicode(hex) => [BACKSLASH, LETTER_U] + hex
  }

  function PieceMeaning(p: Piece): bytes
    requires PieceOk(p)
  {
    match p
    case Raw(b) => [b]
    case Short(c) => [Unescape(c)]
    case Unicode(hex) => UnicodeEscape(hex).value
  }

  /** A high surrogate spelled alone. */
  predicate IsHalf(p: Piece) { p.Unicode? && IsHigh(p.hex) }

  /** A list of pieces is a reading of its own spelling: a high surrogate that
      is followed by another `\u` escape would be read together with it. */
  predicate PiecesOk(ps: seq<Piece>) {
    ps == [] ||
    (PieceOk(ps[0]) && (IsHalf(ps[0]) && |ps| > 1 ==> !ps[1].Unicode?) && PiecesOk(ps[1..]))
  }

  function WritePieces(ps: seq<Piece>): bytes {
    if ps == [] then [] else WritePiece(ps[0]) + WritePieces(ps[1..])
  }

  function PiecesMeaning(ps: seq<Piece>): bytes
    requires PiecesOk(ps)
  {
    if ps == [] then [] else PieceMeaning(ps[0]) + PiecesMeaning(ps[1..])
  }

  lemma ConsPiece(p: Piece, tail: seq<Piece>)
    requires PieceOk(p) && PiecesOk(tail)
    requires IsHalf(p) && tail != [] ==> !tail[0].Unicode?
    ensures PiecesOk([p] + tail)
    ensures WritePieces([p] + tail) == WritePiece(p) + WritePieces(tail)
    ensures PiecesMeaning([p] + tail) == PieceMeaning(p) + PiecesMeaning(tail)
  {
    assert ([p] + tail)[1..] == tail;
  }

  // ----- the parser reads every spelling -----

  predicate StartsUnicode(s: bytes) {
    |s| >= 6 && s[0] == BACKSLASH && s[1] == LETTER_U && IsHex4(s[2..6])
  }

  lemma MatchesHex(hex: bytes, rest: bytes)
    requires IsHex4(hex) || IsPair(hex)
    requires IsHigh(hex) ==> !StartsUnicode(rest)
    ensures MatchUnicode(hex + rest) == |hex| && (hex + rest)[..|hex|] == hex
  {
    var s := hex + rest;
    assert s[..|hex|] == hex;
    if |hex| == 4 && |s| >= 10 {
      assert s[..10][..4] == hex;
      assert s[..10][6..] == rest[2..6];
      assert s[4] == rest[0] && s[5] == rest[1];
    }
  }

  lemma ReadsPiece(p: Piece, rest: bytes)
    requires PieceOk(p)
    requires IsHalf(p) ==> !StartsUnicode(rest)
    ensures NextStep(WritePiece(p) + rest) == Take(|WritePiece(p)|, PieceMeaning(p))
  {
    hide MatchUnicode, UnicodeEscape, StartsUnicode;
    var s := WritePiece(p) + rest;
    if p.Unicode? {
      MatchesHex(p.hex, rest);
      assert s[2..] == p.hex + rest;
    } else {
      assert s[0] == WritePiece(p)[0];
    }
  }

  /** Any spelling is read to its meaning, whatever follows the closing quote. */
  lemma {:induction false} ReadsPieces(ps: seq<Piece>, post: bytes)
    requires PiecesOk(ps)
    ensures ReadChars(WritePieces(ps) + [QUOTE] + post)
         == Found(PiecesMeaning(ps), |WritePieces(ps)| + 1)
  {
    var s := WritePieces(ps) + [QUOTE] + post;
    if ps == [] {
      assert s == [QUOTE] + post;
    } else {
      var w := WritePiece(ps[0]);
      var rest := WritePieces(ps[1..]) + [QUOTE] + post;
      assert s == w + rest;
      if |ps| > 1 { assert ps[1..][0] == ps[1]; }
      ReadsPiece(ps[0], rest);
      assert s[|w|..] == rest;
      ReadsPieces(ps[1..], post);
    }
  }

  // ----- the parser reads nothing else -----

  function PieceAt(s: bytes): Piece
    requires NextStep(s).Take?
  {
    if s[0] != BACKSLASH then Raw(s[0])
    else if s[1] != LETTER_U then Short(s[1])
    else Unicode(s[2..][..MatchUnicode(s[2..])])
  }

  lemma MatchesPair(t: bytes)
    ensures |t| >= 10 && IsHigh(t[..4]) && StartsUnicode(t[4..]) ==> MatchUnicode(t) == 10
  {
    if |t| >= 10 {
      assert t[..10][..4] == t[..4];
      assert t[..10][6..] == t[4..][2..6];
    }
  }

  lemma PieceAtIs(s: bytes)
    requires NextStep(s).Take?
    ensures var p := PieceAt(s);
      PieceOk(p) && WritePiece(p) == s[..NextStep(s).len] && PieceMeaning(p) == NextStep(s).out
    ensures IsHalf(PieceAt(s)) ==> !StartsUnicode(s[NextStep(s).len..])
  {
    var p := PieceAt(s);
    if p.Unicode? {
      var t := s[2..];
      var n := MatchUnicode(t);
      assert s[..2 + n] == [s[0], s[1]] + t[..n];
      MatchesPair(t);
      if n == 4 { assert t[4..] == s[6..]; }
    } else if p.Short? {
      assert s[..2] == [s[0], s[1]];
    }
  }

  function PiecesAt(s: bytes): seq<Piece>
    requires ReadChars(s).Found?
    decreases |s|
  {
    match NextStep(s)
    case End => []
    case Take(n, out) => [PieceAt(s)] + PiecesAt(s[n..])
  }

  /** Whatever the parser accepts is the spelling of some pieces, and what it
      returns is what they mean. */
  lemma {:induction false} ReadsOnlyPieces(s: bytes)
    requires ReadChars(s).Found?
    ensures var ps, r := PiecesAt(s), ReadChars(s);
      PiecesOk(ps) && s[..r.len] == WritePieces(ps) + [QUOTE] && r.value == PiecesMeaning(ps)
    decreases |s|
  {
    hide PieceAt, PieceOk, WritePiece, PieceMeaning, StartsUnicode, IsHalf, NextStep;
    match NextStep(s)
    case End =>
      EndsAtQuote(s);
    case Take(n, out) =>
      hide PiecesOk, WritePieces, PiecesMeaning;
      var rest := s[n..];
      var len := ReadChars(rest).len;
      ReadsOnlyPieces(rest);
      PieceAtIs(s);
      var tail := PiecesAt(rest);
      if IsHalf(PieceAt(s)) && tail != [] && tail[0].Unicode? {
        UnicodeStarts(rest);
        assert false;
      }
      ConsPiece(PieceAt(s), tail);
      TakeMore(s, n, len);
      Associates(WritePiece(PieceAt(s)), WritePieces(tail), [QUOTE]);
  }

  lemma EndsAtQuote(s: bytes)
    requires NextStep(s).End?
    ensures s[..1] == [QUOTE]
  {
  }

  lemma UnicodeStarts(s: bytes)
    requires ReadChars(s).Found? && PiecesAt(s) != [] && PiecesAt(s)[0].Unicode?
    ensures StartsUnicode(s)
  {
    assert s[2..6] == s[2..][..4];
  }

  // ----- the encoder -----

  predicate NeedsEscape(c: byte) { c < 32 || c == QUOTE || c == BACKSLASH }

  /** `escape_char_map`, or 0 for a byte it has no entry for. */
  function EscapeLetter(c: byte): byte {
    if c == BACKSLASH || c == QUOTE then c
    else if c == 8 then 'b' as int
    else if c == 12 then 'f' as int
    else if c == 10 then 'n' as int
    else if c == 13 then 'r' as int
    else if c == 9 then 't' as int
    else 0
  }

  /** `escape_char`. */
  function EscapeChar(c: byte): bytes {
    [BACKSLASH] +
    (if EscapeLetter(c) != 0 then [EscapeLetter(c)]
     else [LETTER_U, HexDigit(0), HexDigit(0), HexDigit(c / 16), HexDigit(c % 16)])
  }

  /** The substitution in `encode_string`. */
  function EscapeAll(val: bytes): bytes {
    if val == [] then []
    else (if NeedsEscape(val[0]) then EscapeChar(val[0]) else [val[0]]) + EscapeAll(val[1..])
  }

  function EncodeString(val: bytes): bytes { [QUOTE] + EscapeAll(val) + [QUOTE] }

  function PieceFor(c: byte): Piece {
    if !NeedsEscape(c) then Raw(c)
    else if EscapeLetter(c) != 0 then Short(EscapeLetter(c))
    else Unicode([HexDigit(0), HexDigit(0), HexDigit(c / 16), HexDigit(c % 16)])
  }

  function PiecesFor(val: bytes): (ps: seq<Piece>)
    ensures |ps| == |val|
  {
    if val == [] then [] else [PieceFor(val[0])] + PiecesFor(val[1..])
  }

  lemma PieceForIs(c: byte)
    ensures PieceOk(PieceFor(c)) && !IsHalf(PieceFor(c)) && PieceMeaning(PieceFor(c)) == [c]
    ensures WritePiece(PieceFor(c)) == if NeedsEscape(c) then EscapeChar(c) else [c]
  {
    if NeedsEscape(c) && EscapeLetter(c) == 0 {
      assert HexNumber(PieceFor(c).hex) == c;
    }
  }

  /** The encoder spells pieces that mean the string it was given. */
  lemma {:induction false} PiecesForIs(val: bytes)
    ensures PiecesOk(PiecesFor(val))
    ensures PiecesMeaning(PiecesFor(val)) == val && WritePieces(PiecesFor(val)) == EscapeAll(val)
  {
    if val != [] {
      PieceForIs(val[0]);
      PiecesForIs(val[1..]);
      assert PiecesFor(val)[1..] == PiecesFor(val[1..]);
    }
  }

  // ----- main results on strings -----

  /** `parse_string` undoes `encode_string` in any surrounding text and stops
      just past the closing quote. */
  lemma DecodesEncoded(pre: bytes, val: bytes, post: bytes)
    ensures ReadString((pre + EncodeString(val) + post)[|pre|..]) == Found(val, |EncodeString(val)|)
  {
    var s := EncodeString(val) + post;
    assert (pre + EncodeString(val) + post)[|pre|..] == s;
    assert s[1..] == EscapeAll(val) + [QUOTE] + post;
    PiecesForIs(val);
    ReadsPieces(PiecesFor(val), post);
    assert [] + val == val;
  }

  /** Read from the left, a backslash takes the byte behind it along; no quote
      stands by itself, and no byte is a control byte. */
  predicate NoBareQuote(s: bytes)
    decreases |s|
  {
    s == [] ||
    (if s[0] == BACKSLASH then |s| >= 2 && s[1] >= 32 && NoBareQuote(s[2..])
     else s[0] >= 32 && s[0] != QUOTE && NoBareQuote(s[1..]))
  }

  lemma {:induction false} NoBareQuoteJoins(a: bytes, b: bytes)
    requires NoBareQuote(a) && NoBareQuote(b)
    ensures NoBareQuote(a + b)
    decreases |a|
  {
    if a == [] {
      assert a + b == b;
    } else {
      var n := if a[0] == BACKSLASH then 2 else 1;
      NoBareQuoteJoins(a[n..], b);
      assert (a + b)[n..] == a[n..] + b;
    }
  }

  lemma {:induction false} PlainHasNoBareQuote(s: bytes)
    requires forall i :: 0 <= i < |s| ==> !NeedsEscape(s[i])
    ensures NoBareQuote(s)
    decreases |s|
  {
    if s != [] { PlainHasNoBareQuote(s[1..]); }
  }

  lemma EscapeHasNoBareQuote(c: byte)
    ensures NoBareQuote(if NeedsEscape(c) then EscapeChar(c) else [c])
  {
    if NeedsEscape(c) {
      PlainHasNoBareQuote(EscapeChar(c)[2..]);
    } else {
      PlainHasNoBareQuote([c]);
    }
  }

  /** What the scan from the left says about each byte. */
  lemma {:induction false} NoBareQuoteAt(s: bytes, k: nat)
    requires NoBareQuote(s) && k < |s|
    ensures s[k] >= 32 && (s[k] == QUOTE ==> k > 0 && s[k - 1] == BACKSLASH)
    decreases |s|
  {
    var n := if s[0] == BACKSLASH then 2 else 1;
    if k >= n { NoBareQuoteAt(s[n..], k - n); }
  }

  /** Between the quotes no control byte is left, and every quote is the second byte of an escape. */
  lemma {:induction false} EscapesEverything(val: bytes)
    ensures NoBareQuote(EscapeAll(val))
    ensures forall k :: 0 <= k < |EscapeAll(val)| ==>
      EscapeAll(val)[k] >= 32 && (EscapeAll(val)[k] == QUOTE ==> k > 0 && EscapeAll(val)[k - 1] == BACKSLASH)
  {
    if val != [] {
      EscapeHasNoBareQuote(val[0]);
      EscapesEverything(val[1..]);
      NoBareQuoteJoins(if NeedsEscape(val[0]) then EscapeChar(val[0]) else [val[0]], EscapeAll(val[1..]));
    }
    forall k | 0 <= k < |EscapeAll(val)|
      ensures EscapeAll(val)[k] >= 32 && (EscapeAll(val)[k] == QUOTE ==> k > 0 && EscapeAll(val)[k - 1] == BACKSLASH)
    {
      NoBareQuoteAt(EscapeAll(val), k);
    }
  }

  // ----- Unicode escapes -----

  /** `hex` spells the scalar value `n` as one escape or, above 0xffff, as the
      surrogate pair that section 2.2 of RFC 2781 assigns to it. */
  predicate Spells(hex: bytes, n: int) {
    if n < 0x10000 then Digits4(hex, n)
    else
      && |hex| == 10 && Digits4(hex[..4], 0xd800 + (n - 0x10000) / 0x400)
      && hex[4] == 92 && hex[5] == 117 && Digits4(hex[6..], 0xdc00 + (n - 0x10000) % 0x400)
  }

  /** Every escape of a scalar value, in either letter case and before any
      text, is read as the shortest UTF-8 form of that value. */
  lemma ReadsScalar(n: nat, hex: bytes, post: bytes)
    requires IsScalar(n) && Spells(hex, n)
    ensures PieceOk(Unicode(hex)) && !IsHalf(Unicode(hex)) && CodepointToUtf8(n).Success?
    ensures PieceMeaning(Unicode(hex)) == CodepointToUtf8(n).value
    ensures NextStep([92, 117] + hex + post) == Take(2 + |hex|, CodepointToUtf8(n).value)
    ensures FirstChar(CodepointToUtf8(n).value) == Some((n, |CodepointToUtf8(n).value|))
  {
    var u := CodepointToUtf8(n).value;
    Utf8.ReadsBack(n, []);
    assert u + [] == u;
    SpellsMeans(hex, n);
    hide HexNumber, Digits4, IsHigh, IsHex4;
    ReadsPiece(Unicode(hex), post);
    assert WritePiece(Unicode(hex)) + post == [92, 117] + hex + post;
  }

  lemma SpellsMeans(hex: bytes, n: nat)
    requires IsScalar(n) && Spells(hex, n)
    ensures (IsHex4(hex) || IsPair(hex)) && !IsHigh(hex) && UnicodeEscape(hex) == CodepointToUtf8(n)
  {
    hide CodepointToUtf8, HexNumber, Digits4;
    if n < 0x10000 {
      HexNumberIff(hex, n);
      IsHighMeans(hex);
    } else {
      var hi, lo := 0xd800 + (n - 0x10000) / 0x400, 0xdc00 + (n - 0x10000) % 0x400;
      hide IsHigh, IsHex4;
      PairIs(hi, lo, hex);
      assert (hi - 0xd800) * 0x400 + (lo - 0xdc00) + 0x10000 == n;
      LongIsNotHigh(hex);
    }
  }

  lemma PairEscape(hex: bytes)
    requires |hex| == 10 && IsHigh(hex[..4]) && hex[4] == 92 && hex[5] == 117 && IsHex4(hex[6..])
    ensures IsPair(hex)
    ensures var n := (HexNumber(hex[..4]) - 0xd800) * 0x400 + (HexNumber(hex[6..]) - 0xdc00) + 0x10000;
      n >= 0 && UnicodeEscape(hex) == CodepointToUtf8(n)
  {
    hide CodepointToUtf8, HexNumber;
    HighBounds(hex[..4], HexNumber(hex[6..]));
  }

  lemma LongIsNotHigh(hex: bytes)
    requires |hex| == 10
    ensures !IsHigh(hex)
  {
  }

  /** Escapes that are no scalar value: a single one is read as its code unit,
      whatever that is, and a high surrogate with any escape behind it by the
      formula for pairs, if that gives a code point. */
  lemma ReadsUnit(v: nat, hex: bytes, post: bytes)
    requires Digits4(hex, v) && (0xd800 <= v <= 0xdbff ==> !StartsUnicode(post))
    ensures CodepointToUtf8(v).Success?
    ensures NextStep([92, 117] + hex + post) == Take(6, CodepointToUtf8(v).value)
  {
    HexNumberIff(hex, v);
    IsHighMeans(hex);
    CarriesBits(v);
    hide HexNumber, Digits4, IsHigh, IsHex4, CodepointToUtf8;
    ReadsPiece(Unicode(hex), post);
    assert WritePiece(Unicode(hex)) + post == [92, 117] + hex + post;
  }

  lemma ReadsPair(hi: nat, high: bytes, lo: nat, low: bytes, post: bytes)
    requires Digits4(high, hi) && 0xd800 <= hi <= 0xdbff && Digits4(low, lo)
    ensures var n := (hi - 0xd800) * 0x400 + (lo - 0xdc00) + 0x10000;
      n >= 0 && NextStep([92, 117] + high + [92, 117] + low + post)
        == (if n <= 0x10ffff then Take(12, CodepointToUtf8(n).value) else Bad)
  {
    assert |high| == 4 && |low| == 4;
    hide *;
    var n, hex := (hi - 0xd800) * 0x400 + (lo - 0xdc00) + 0x10000, high + [92, 117] + low;
    assert hex[..4] == high && hex[6..] == low && hex[4] == 92 && hex[5] == 117;
    PairIs(hi, lo, hex);
    CarriesBits(n);
    assert [92, 117] + high + [92, 117] + low + post == [92, 117] + (hex + post);
    ReadsHex(hex, post);
  }

  lemma PairIs(hi: nat, lo: nat, hex: bytes)
    requires |hex| == 10 && hex[4] == 92 && hex[5] == 117
    requires Digits4(hex[..4], hi) && 0xd800 <= hi <= 0xdbff && Digits4(hex[6..], lo)
    ensures var n := (hi - 0xd800) * 0x400 + (lo - 0xdc00) + 0x10000;
      n >= 0 && IsPair(hex) && UnicodeEscape(hex) == CodepointToUtf8(n)
  {
    hide IsHigh, IsHex4, HexNumber, Digits4, CodepointToUtf8, UnicodeEscape, IsPair;
    HexNumberIff(hex[..4], hi);
    HexNumberIff(hex[6..], lo);
    IsHighMeans(hex[..4]);
    PairEscape(hex);
  }

  /** An escape whose digits are matched up to `hex`. */
  lemma ReadsHex(hex: bytes, post: bytes)
    requires IsPair(hex) && |hex| == 10
    ensures var u := UnicodeEscape(hex);
      NextStep([92, 117] + (hex + post)) == (if u.Success? then Take(12, u.value) else Bad)
  {
    hide HexNumber, UnicodeEscape, IsHex4;
    LongIsNotHigh(hex);
    MatchesHex(hex, post);
    var s := [92, 117] + (hex + post);
    assert s[2..] == hex + post;
  }
}
