/** `json.decode` reads every text of RFC 8259 to its value. */
module JsonAcceptsRfc {
  import opened Bytes
  import opened JsonText
  import opened JsonString
  import opened JsonPieces
  import opened JsonNumber
  import opened JsonSyntax
  import opened JsonDecode
  import opened JsonAccepts
  import opened JsonEncode
  import opened JsonUnfold
  import opened JsonReprint
  import opened Rfc8259

  // ----- strings -----

  function PieceOf(c: Char): Piece {
    match c
    case Plain(b) => Raw(b)
    case Escaped(letter) => Short(letter)
    case Point(_, hex) => Unicode(hex)
  }

  function PiecesOf(cs: seq<Char>): (ps: seq<Piece>)
    ensures |ps| == |cs|
  {
    if cs == [] then [] else [PieceOf(cs[0])] + PiecesOf(cs[1..])
  }

  lemma PieceOfIs(c: Char)
    requires CharOk(c)
    ensures PieceOk(PieceOf(c)) && !IsHalf(PieceOf(c))
    ensures WritePiece(PieceOf(c)) == CharText(c) && PieceMeaning(PieceOf(c)) == CharBytes(c)
  {
    hide Spells, IsHex4, UnicodeEscape;
    match c
    case Plain(_) =>
    case Escaped(_) =>
    case Point(n, hex) => ReadsScalar(n, hex, []);
  }

  lemma {:induction false} PiecesOfIs(cs: seq<Char>)
    requires CharsOk(cs)
    ensures PiecesOk(PiecesOf(cs))
    ensures WritePieces(PiecesOf(cs)) == CharsText(cs) && PiecesMeaning(PiecesOf(cs)) == CharsBytes(cs)
  {
    hide CharOk, PieceOk, PieceOf, WritePiece, PieceMeaning, IsHalf, CharText, CharBytes;
    if cs != [] {
      PieceOfIs(cs[0]);
      PiecesOfIs(cs[1..]);
      assert PiecesOf(cs)[1..] == PiecesOf(cs[1..]);
      ConsPiece(PieceOf(cs[0]), PiecesOf(cs[1..]));
    }
  }

  // ----- values -----

  function SyntaxOf(j: Json): Syntax
    decreases j
  {
    match j
    case Null => Word(NULL)
    case True => Word(TRUE)
    case False => Word(FALSE)
    case Int(text) => Word(text)
    case Str(chars) => Text(PiecesOf(chars))
    case Arr(elems, comma, inner) => Array(ItemsOf(elems), comma, inner)
    case Obj(pairs, comma, inner) => Object(MembersOf(pairs), comma, inner)
  }

  function ItemsOf(es: seq<Elem>): (items: seq<Item>)
    ensures |items| == |es|
    decreases es
  {
    if es == [] then [] else [ItemOf(es[0])] + ItemsOf(es[1..])
  }

  function ItemOf(e: Elem): Item
    decreases e
  {
    Item(e.before, SyntaxOf(e.value), e.after)
  }

  function MembersOf(ps: seq<Pair>): (members: seq<Member>)
    ensures |members| == |ps|
    decreases ps
  {
    if ps == [] then [] else [MemberOf(ps[0])] + MembersOf(ps[1..])
  }

  function MemberOf(p: Pair): Member
    decreases p
  {
    Member(p.before, PiecesOf(p.key), p.beforeColon, p.afterColon, SyntaxOf(p.value), p.after)
  }

  lemma {:induction false} ItemsOfAt(es: seq<Elem>, i: nat)
    requires i < |es|
    ensures ItemsOf(es)[i] == ItemOf(es[i])
  {
    hide ItemOf;
    if i > 0 { ItemsOfAt(es[1..], i - 1); }
  }

  lemma {:induction false} MembersOfAt(ps: seq<Pair>, i: nat)
    requires i < |ps|
    ensures MembersOf(ps)[i] == MemberOf(ps[i])
  {
    hide MemberOf;
    if i > 0 { MembersOfAt(ps[1..], i - 1); }
  }

  lemma WsIsSpace(s: bytes)
    requires IsWs(s)
    ensures AllSpace(s)
  {
  }

  /** A word of the grammar is one the parser takes for it. */
  lemma WordsAre(j: Json, read: Reader)
    requires JsonOk(j) && (j.Null? || j.True? || j.False? || j.Int?)
    ensures SyntaxOk(SyntaxOf(j), read) && Write(SyntaxOf(j)) == TextOf(j) && Means(j, Meaning(SyntaxOf(j), read))
    ensures IsNull(SyntaxOf(j)) <==> j == Null
  {
    if j.Int? { ReadsInteger(j.text, read); }
  }

  /** The text of the grammar is one the parser knows, and both mean the same. */
  lemma {:induction false} SyntaxOfIs(j: Json, read: Reader)
    requires JsonOk(j)
    ensures SyntaxOk(SyntaxOf(j), read) && Write(SyntaxOf(j)) == TextOf(j) && Means(j, Meaning(SyntaxOf(j), read))
    ensures IsNull(SyntaxOf(j)) <==> j == Null
    decreases j, 1
  {
    hide Means;
    match j
    case Str(chars) =>
      PiecesOfIs(chars);
      StringMeans(chars);
    case Arr(elems, comma, inner) => ArrayOfIs(elems, comma, inner, read);
    case Obj(pairs, comma, inner) => ObjectOfIs(pairs, comma, inner, read);
    case _ => WordsAre(j, read);
  }

  lemma StringMeans(chars: seq<Char>)
    ensures Means(Str(chars), String(CharsBytes(chars)))
  {
  }

  lemma ItemOfIs(e: Elem, read: Reader)
    requires IsWs(e.before) && JsonOk(e.value) && IsWs(e.after)
    ensures ItemOk(ItemOf(e), read) && WriteItem(ItemOf(e)) == ElemText(e)
    ensures Means(e.value, MeaningOf(ItemOf(e).value, read)) && (IsNull(ItemOf(e).value) <==> e.value == Null)
    decreases e, 2
  {
    hide Means, JsonOk, SyntaxOf, Write, SyntaxOk, IsNull;
    SyntaxOfIs(e.value, read);
    WsIsSpace(e.before);
    WsIsSpace(e.after);
  }

  lemma MemberOfIs(p: Pair, read: Reader)
    requires IsWs(p.before) && CharsOk(p.key) && IsWs(p.beforeColon) && IsWs(p.afterColon)
    requires JsonOk(p.value) && IsWs(p.after)
    ensures MemberOk(MemberOf(p), read) && WriteMember(MemberOf(p)) == PairText(p)
    ensures KeyOf(MemberOf(p)) == CharsBytes(p.key)
    ensures Means(p.value, MeaningOf(MemberOf(p).value, read)) && (IsNull(MemberOf(p).value) <==> p.value == Null)
    decreases p, 2
  {
    hide Means, JsonOk, SyntaxOf, Write, SyntaxOk, IsNull, CharsOk, PiecesOk, WritePieces, PiecesMeaning;
    SyntaxOfIs(p.value, read);
    PiecesOfIs(p.key);
    WsIsSpace(p.before);
    WsIsSpace(p.beforeColon);
    WsIsSpace(p.afterColon);
    WsIsSpace(p.after);
  }

  lemma {:induction false} ItemsText(es: seq<Elem>, comma: bool, inner: bytes)
    requires forall i :: 0 <= i < |es| ==> WriteItem(ItemOf(es[i])) == ElemText(es[i])
    ensures WriteItems(ItemsOf(es), comma, inner) == ElemsText(es, comma, inner)
    decreases |es|
  {
    hide ItemOf, WriteItem, ElemText;
    if es != [] {
      assert ItemsOf(es)[1..] == ItemsOf(es[1..]);
      ItemsText(es[1..], comma, inner);
    }
  }

  lemma {:induction false} MembersText(ps: seq<Pair>, comma: bool, inner: bytes)
    requires forall i :: 0 <= i < |ps| ==> WriteMember(MemberOf(ps[i])) == PairText(ps[i])
    ensures WriteMembers(MembersOf(ps), comma, inner) == PairsText(ps, comma, inner)
    decreases |ps|
  {
    hide MemberOf, WriteMember, PairText;
    if ps != [] {
      assert MembersOf(ps)[1..] == MembersOf(ps[1..]);
      MembersText(ps[1..], comma, inner);
    }
  }

  lemma ArrayOfIs(es: seq<Elem>, comma: bool, inner: bytes, read: Reader)
    requires JsonOk(Arr(es, comma, inner))
    ensures var c := Array(ItemsOf(es), comma, inner);
      SyntaxOk(c, read) && Write(c) == TextOf(Arr(es, comma, inner)) && Means(Arr(es, comma, inner), Meaning(c, read))
    decreases Arr(es, comma, inner), 0
  {
    hide ItemOf, WriteItem, ElemText, SyntaxOf, IsNull, FillItems, ItemOk, WriteItems, ElemsText, MeaningOf;
    var items := ItemsOf(es);
    forall i | 0 <= i < |es|
      ensures items[i] == ItemOf(es[i]) && ItemOk(items[i], read) && WriteItem(ItemOf(es[i])) == ElemText(es[i])
      ensures Means(es[i].value, MeaningOf(items[i].value, read)) && (IsNull(items[i].value) <==> es[i].value == Null)
    {
      ItemOfIs(es[i], read);
      ItemsOfAt(es, i);
    }
    ItemsText(es, comma, inner);
    AllItemsOk(items, read);
    WsIsSpace(inner);
    ItemsLand(map[], 1, items, read);
    ArrayMeans(es, comma, inner, items, FillItems(map[], 1, items, read), read);
  }

  lemma ArrayMeans(es: seq<Elem>, comma: bool, inner: bytes, items: seq<Item>, u: Fields, read: Reader)
    requires |items| == |es| && SameBut(u, map[], Slots(1, |items|))
    requires forall i :: 0 <= i < |es| ==> Lands(u, IntKey(1 + i), items[i].value, read)
    requires forall i :: 0 <= i < |es| ==>
      Means(es[i].value, MeaningOf(items[i].value, read)) && (IsNull(items[i].value) <==> es[i].value == Null)
    ensures Means(Arr(es, comma, inner), Table(u))
  {
    hide MeaningOf, IsNull;
    forall k | k in u ensures k.IntKey? && 1 <= k.i <= |es| {
      assert k in Slots(1, |items|);
    }
    forall i | 0 <= i < |es|
      ensures IntKey(i + 1) in u <==> es[i].value != Null
      ensures IntKey(i + 1) in u ==> Means(es[i].value, u[IntKey(i + 1)])
    {
      assert Lands(u, IntKey(1 + i), items[i].value, read);
    }
  }

  lemma ObjectOfIs(ps: seq<Pair>, comma: bool, inner: bytes, read: Reader)
    requires JsonOk(Obj(ps, comma, inner))
    ensures var c := Object(MembersOf(ps), comma, inner);
      SyntaxOk(c, read) && Write(c) == TextOf(Obj(ps, comma, inner)) && Means(Obj(ps, comma, inner), Meaning(c, read))
    decreases Obj(ps, comma, inner), 0
  {
    hide MemberOf, WriteMember, PairText, SyntaxOf, IsNull, FillMembers, MemberOk, WriteMembers, PairsText, MeaningOf,
      KeyOf, CharsBytes;
    var members := MembersOf(ps);
    forall i | 0 <= i < |ps|
      ensures members[i] == MemberOf(ps[i]) && MemberOk(members[i], read)
      ensures WriteMember(MemberOf(ps[i])) == PairText(ps[i]) && KeyOf(members[i]) == CharsBytes(ps[i].key)
      ensures Means(ps[i].value, MeaningOf(members[i].value, read))
      ensures IsNull(members[i].value) <==> ps[i].value == Null
    {
      MemberOfIs(ps[i], read);
      MembersOfAt(ps, i);
    }
    MembersText(ps, comma, inner);
    AllMembersOk(members, read);
    WsIsSpace(inner);
    MembersLand(map[], members, read);
    ObjectMeans(ps, comma, inner, members, FillMembers(map[], members, read), read);
  }

  lemma ObjectMeans(ps: seq<Pair>, comma: bool, inner: bytes, members: seq<Member>, u: Fields, read: Reader)
    requires |members| == |ps| && SameBut(u, map[], KeysOf(members))
    requires forall i :: 0 <= i < |ps| && IsLast(members, i) ==>
      Lands(u, StrKey(KeyOf(members[i])), members[i].value, read)
    requires forall i :: 0 <= i < |ps| ==> KeyOf(members[i]) == CharsBytes(ps[i].key)
    requires forall i :: 0 <= i < |ps| ==>
      Means(ps[i].value, MeaningOf(members[i].value, read)) && (IsNull(members[i].value) <==> ps[i].value == Null)
    ensures Means(Obj(ps, comma, inner), Table(u))
  {
    hide MeaningOf, IsNull, KeyOf, CharsBytes;
    forall k | k in u ensures exists i :: 0 <= i < |ps| && k == StrKey(CharsBytes(ps[i].key)) {
      assert k in KeysOf(members);
      var i :| 0 <= i < |members| && k == StrKey(KeyOf(members[i]));
      assert k == StrKey(CharsBytes(ps[i].key));
    }
    forall i | 0 <= i < |ps| && LastKey(ps, i)
      ensures var k := StrKey(CharsBytes(ps[i].key));
        (k in u <==> ps[i].value != Null) && (k in u ==> Means(ps[i].value, u[k]))
    {
      assert IsLast(members, i);
      assert Lands(u, StrKey(KeyOf(members[i])), members[i].value, read);
    }
  }

  /** `json.decode` accepts every text of the grammar between white space, and
      returns what it means. */
  lemma DecodesRfc(pre: bytes, j: Json, post: bytes, read: Reader)
    requires IsWs(pre) && JsonOk(j) && IsWs(post)
    ensures var r := Decode(pre + TextOf(j) + post, read); r.Success? && Means(j, r.value)
  {
    hide Means, JsonOk, SyntaxOf, Write, SyntaxOk, IsNull, Decode, TextOf;
    SyntaxOfIs(j, read);
    WsIsSpace(pre);
    WsIsSpace(post);
    DecodesText(pre, SyntaxOf(j), post, read);
  }

  // ----- what else the parser takes, and what it refuses -----

  /** White space and what ends a word. */
  lemma ByteSets(b: byte)
    ensures IsSpace(b) <==> b == 32 || b == 9 || b == 10 || b == 13
    ensures IsDelim(b) <==> b == 32 || b == 9 || b == 10 || b == 13 || b == 93 || b == 125 || b == 44
  {
  }

  /** A value starts with a quote, a minus sign, a digit, a bracket, a brace or
      the first letter of a literal; a literal is spelled out, and a number or a
      literal runs up to the end or to one of those bytes. */
  lemma StartsValue(s: bytes, read: Reader)
    requires ValueAt(s, read).Found?
    ensures s != []
    ensures var b := s[0];
      b == 34 || b == 45 || 48 <= b <= 57 || b == 91 || b == 123 || b == 116 || b == 102 || b == 110
    ensures var b, len := s[0], ValueAt(s, read).len;
      b == 116 || b == 102 || b == 110 ==>
        len <= |s| && (s[..len] == [116, 114, 117, 101] || s[..len] == [102, 97, 108, 115, 101]
                       || s[..len] == [110, 117, 108, 108])
    ensures var b, len := s[0], ValueAt(s, read).len;
      b != 34 && b != 91 && b != 123 && len < |s| ==>
        s[len] == 32 || s[len] == 9 || s[len] == 10 || s[len] == 13 || s[len] == 93 || s[len] == 125 || s[len] == 44
  {
    hide ItemsAt, MembersAt, ReadChars, Scan;
    ByteSets(s[0]);
  }

  /** The characters of a string: a quote ends it, a control byte or a backslash
      before any other letter is refused, and the eight letters stand for bytes. */
  lemma CharacterRead(s: bytes)
    requires s != []
    ensures s[0] == 34 ==> NextStep(s).End?
    ensures s[0] < 32 ==> NextStep(s).Bad?
    ensures s[0] >= 32 && s[0] != 34 && s[0] != 92 ==> NextStep(s) == Take(1, [s[0]])
    ensures s[0] == 92 && |s| > 1 && s[1] != 117 ==>
      NextStep(s) ==
        if s[1] == 34 then Take(2, [34])
        else if s[1] == 92 then Take(2, [92])
        else if s[1] == 47 then Take(2, [47])
        else if s[1] == 98 then Take(2, [8])
        else if s[1] == 102 then Take(2, [12])
        else if s[1] == 110 then Take(2, [10])
        else if s[1] == 114 then Take(2, [13])
        else if s[1] == 116 then Take(2, [9])
        else Bad
    ensures s[0] == 92 && |s| == 1 ==> NextStep(s).Bad?
  {
  }

  /** A `\u` without four digits behind it is refused. */
  lemma NeedsFourDigits(s: bytes)
    requires |s| >= 2 && s[0] == 92 && s[1] == 117
    requires |s| < 6 || forall n :: !Digits4(s[2..6], n)
    ensures NextStep(s).Bad?
  {
    if |s| >= 6 {
      var t := s[2..];
      assert t[..4] == s[2..6];
      if IsHex4(t[..4]) { HexNumberIff(t[..4], HexNumber(t[..4])); }
      if |t| >= 10 { assert t[..10][..4] == t[..4]; }
    }
  }
}
