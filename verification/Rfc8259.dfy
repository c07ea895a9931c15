/** JSON texts by RFC 8259, byte by byte, and what they mean in Lua. Numbers are
    the integers of its grammar with up to fifteen digits; a trailing comma is
    the one thing allowed beyond the grammar. */
module Rfc8259 {
  import opened Bytes
  import opened Utf8
  import opened JsonPieces
  import opened JsonNumber
  import opened JsonSyntax

  /** Section 7: a character as itself, behind a backslash, or by its number. */
  datatype Char = Plain(b: byte) | Escaped(letter: byte) | Point(n: nat, hex: bytes)

  datatype Json =
    | Null
    | True
    | False
    | Int(text: bytes)
    | Str(chars: seq<Char>)
    | Arr(elems: seq<Elem>, comma: bool, inner: bytes)
    | Obj(pairs: seq<Pair>, comma: bool, inner: bytes)

  datatype Elem = Elem(before: bytes, value: Json, after: bytes)

  datatype Pair =
    Pair(before: bytes, key: seq<Char>, beforeColon: bytes, afterColon: bytes, value: Json, after: bytes)

  // ----- which texts -----

  /** Section 2: space, tab, line feed, carriage return. */
  predicate IsWs(s: bytes) { forall i :: 0 <= i < |s| ==> s[i] == 32 || s[i] == 9 || s[i] == 10 || s[i] == 13 }

  predicate CharOk(c: Char) {
    match c
    case Plain(b) => b >= 32 && b != 34 && b != 92
    case Escaped(x) => x == 34 || x == 92 || x == 47 || x == 98 || x == 102 || x == 110 || x == 114 || x == 116
    case Point(n, hex) => IsScalar(n) && Spells(hex, n)
  }

  predicate CharsOk(cs: seq<Char>) { forall i :: 0 <= i < |cs| ==> CharOk(cs[i]) }

  predicate JsonOk(j: Json)
    decreases j
  {
    match j
    case Int(text) => IsInt(text) && |text| <= (if HasSign(text) then 16 else 15)
    case Str(chars) => CharsOk(chars)
    case Arr(elems, comma, inner) =>
      (comma ==> elems != []) && IsWs(inner) && forall i :: 0 <= i < |elems| ==>
        IsWs(elems[i].before) && JsonOk(elems[i].value) && IsWs(elems[i].after)
    case Obj(pairs, comma, inner) =>
      (comma ==> pairs != []) && IsWs(inner) && forall i :: 0 <= i < |pairs| ==>
        IsWs(pairs[i].before) && CharsOk(pairs[i].key) && IsWs(pairs[i].beforeColon) && IsWs(pairs[i].afterColon)
        && JsonOk(pairs[i].value) && IsWs(pairs[i].after)
    case _ => true
  }

  // ----- the text -----

  function CharText(c: Char): bytes {
    match c
    case Plain(b) => [b]
    case Escaped(letter) => [92, letter]
    case Point(_, hex) => [92, 117] + hex
  }

  function CharsText(cs: seq<Char>): bytes { if cs == [] then [] else CharText(cs[0]) + CharsText(cs[1..]) }

  function TextOf(j: Json): bytes
    decreases j
  {
    match j
    case Null => [110, 117, 108, 108]
    case True => [116, 114, 117, 101]
    case False => [102, 97, 108, 115, 101]
    case Int(text) => text
    case Str(chars) => [34] + CharsText(chars) + [34]
    case Arr(elems, comma, inner) => [91] + ElemsText(elems, comma, inner)
    case Obj(pairs, comma, inner) => [123] + PairsText(pairs, comma, inner)
  }

  function ElemsText(es: seq<Elem>, comma: bool, inner: bytes): bytes
    decreases es
  {
    if es == [] then inner + [93]
    else
      ElemText(es[0]) + (if |es| == 1 && !comma then [93] else [44] + ElemsText(es[1..], comma, inner))
  }

  function ElemText(e: Elem): bytes
    decreases e
  {
    e.before + TextOf(e.value) + e.after
  }

  function PairsText(ps: seq<Pair>, comma: bool, inner: bytes): bytes
    decreases ps
  {
    if ps == [] then inner + [125]
    else
      PairText(ps[0]) + (if |ps| == 1 && !comma then [125] else [44] + PairsText(ps[1..], comma, inner))
  }

  function PairText(p: Pair): bytes
    decreases p
  {
    p.before + ([34] + CharsText(p.key) + [34]) + p.beforeColon + [58] + p.afterColon + TextOf(p.value) + p.after
  }

  // ----- the value -----

  function CharBytes(c: Char): bytes {
    match c
    case Plain(b) => [b]
    case Escaped(x) =>
      [if x == 98 then 8 else if x == 102 then 12 else if x == 110 then 10 else if x == 114 then 13
       else if x == 116 then 9 else x]
    case Point(n, _) => if CodepointToUtf8(n).Success? then CodepointToUtf8(n).value else []
  }

  function CharsBytes(cs: seq<Char>): bytes { if cs == [] then [] else CharBytes(cs[0]) + CharsBytes(cs[1..]) }

  predicate LastKey(ps: seq<Pair>, i: nat)
    requires i < |ps|
  {
    forall k :: i < k < |ps| ==> CharsBytes(ps[k].key) != CharsBytes(ps[i].key)
  }

  /** Item number `i` has the key `i`, counted from 1; the last of several
      members with one name counts; nulls are missing. */
  ghost predicate Means(j: Json, v: Value)
    decreases j
  {
    match j
    case Null => v == Nil
    case True => v == Boolean(true)
    case False => v == Boolean(false)
    case Int(text) => v == Number(IntValue(text) as real)
    case Str(chars) => v == String(CharsBytes(chars))
    case Arr(elems, _, _) =>
      && v.Table?
      && (forall k :: k in v.fields ==> k.IntKey? && 1 <= k.i <= |elems|)
      && forall i :: 0 <= i < |elems| ==>
           (IntKey(i + 1) in v.fields <==> elems[i].value != Null)
           && (IntKey(i + 1) in v.fields ==> Means(elems[i].value, v.fields[IntKey(i + 1)]))
    case Obj(pairs, _, _) =>
      && v.Table?
      && (forall k :: k in v.fields ==> exists i :: 0 <= i < |pairs| && k == StrKey(CharsBytes(pairs[i].key)))
      && forall i :: 0 <= i < |pairs| && LastKey(pairs, i) ==>
           var k := StrKey(CharsBytes(pairs[i].key));
           (k in v.fields <==> pairs[i].value != Null) && (k in v.fields ==> Means(pairs[i].value, v.fields[k]))
  }
}
