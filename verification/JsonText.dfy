/** Characters of the JSON codec in LuaLibraries/json.lua and the scan over them. */
module JsonText {
  import opened Bytes

  const QUOTE: byte := '"' as int
  const BACKSLASH: byte := '\\' as int
  const COMMA: byte := ',' as int
  const COLON: byte := ':' as int
  const LBRACKET: byte := '[' as int
  const RBRACKET: byte := ']' as int
  const LBRACE: byte := '{' as int
  const RBRACE: byte := '}' as int
  const LETTER_U: byte := 'u' as int
  const MINUS: byte := '-' as int

  const NULL: bytes := ['n' as int, 'u' as int, 'l' as int, 'l' as int]
  const TRUE: bytes := ['t' as int, 'r' as int, 'u' as int, 'e' as int]
  const FALSE: bytes := ['f' as int, 'a' as int, 'l' as int, 's' as int, 'e' as int]

  predicate IsSpace(b: byte) { b == 32 || b == 9 || b == 13 || b == 10 }

  predicate IsDelim(b: byte) { IsSpace(b) || b == RBRACKET || b == RBRACE || b == COMMA }

  predicate IsDigit(b: byte) { 48 <= b <= 57 }

  predicate AllSpace(s: bytes) { forall i :: 0 <= i < |s| ==> IsSpace(s[i]) }

  predicate NoDelim(s: bytes) { forall i :: 0 <= i < |s| ==> !IsDelim(s[i]) }

  /** What may follow a number or a literal: the end of the text or a delimiter. */
  predicate Delimited(post: bytes) { post == [] || IsDelim(post[0]) }

  /** The two tables that `next_char` is used with. */
  datatype CharSet = SpaceChars | DelimChars {
    predicate Has(b: byte) {
      match this
      case SpaceChars => IsSpace(b)
      case DelimChars => IsDelim(b)
    }
  }

  /** `next_char`: the offset of the first byte whose membership in `chars`
      differs from `negate`, or the length of the text. */
  function Scan(s: bytes, chars: CharSet, negate: bool): (n: nat)
    ensures n <= |s|
    ensures forall k :: 0 <= k < n ==> chars.Has(s[k]) == negate
    ensures n < |s| ==> chars.Has(s[n]) != negate
  {
    if s == [] || chars.Has(s[0]) != negate then 0
    else 1 + Scan(s[1..], chars, negate)
  }

  function SkipSpace(s: bytes): nat { Scan(s, SpaceChars, true) }

  function WordLength(s: bytes): nat { Scan(s, DelimChars, false) }

  /** The scan is determined by where it must stop. */
  lemma {:induction false} ScanIs(s: bytes, chars: CharSet, negate: bool, n: nat)
    requires n <= |s|
    requires forall k :: 0 <= k < n ==> chars.Has(s[k]) == negate
    requires n < |s| ==> chars.Has(s[n]) != negate
    ensures Scan(s, chars, negate) == n
  {
    if n > 0 { ScanIs(s[1..], chars, negate, n - 1); }
  }

  /** A block of white space is skipped whole when no white space follows it. */
  lemma SkipSpacePast(ws: bytes, rest: bytes)
    requires AllSpace(ws)
    requires rest == [] || !IsSpace(rest[0])
    ensures SkipSpace(ws + rest) == |ws|
  {
    ScanIs(ws + rest, SpaceChars, true, |ws|);
  }

  /** A word runs up to the delimiter, or the end, that follows it. */
  lemma WordLengthIs(word: bytes, post: bytes)
    requires NoDelim(word) && Delimited(post)
    ensures WordLength(word + post) == |word|
  {
    ScanIs(word + post, DelimChars, false, |word|);
  }

  method NextChar(str: bytes, idx: nat, chars: CharSet, negate: bool) returns (j: nat)
    requires idx <= |str|
    ensures j == idx + Scan(str[idx..], chars, negate)
    ensures idx <= j <= |str|
  {
    var i := idx;
    while i < |str|
      invariant idx <= i <= |str|
      invariant forall k :: idx <= k < i ==> chars.Has(str[k]) == negate
    {
      if chars.Has(str[i]) != negate {
        ScanIs(str[idx..], chars, negate, i - idx);
        return i;
      }
      i := i + 1;
    }
    ScanIs(str[idx..], chars, negate, |str| - idx);
    return |str|;
  }
}
