/** The converse of JsonGrammar: what the parser accepts is well formed. With
    it, `decode` is characterised on every byte string. */
module JsonAccepts {
  import opened Bytes
  import opened Wrappers
  import opened JsonText
  import opened JsonString
  import opened JsonPieces
  import opened JsonNumber
  import opened JsonSyntax
  import opened JsonDecode
  import opened JsonGrammar

  /** `c` is what the parser read from the front of `s`. */
  ghost predicate IsRead(s: bytes, c: Syntax, r: Parsed<Value>, read: Reader) {
    && r.Found? && r.len <= |s|
    && SyntaxOk(c, read) && Write(c) == s[..r.len] && Meaning(c, read) == r.value
    && (c.Word? ==> Delimited(s[r.len..]))
  }

  ghost predicate IsReadItems(s: bytes, t: Fields, n: int, items: seq<Item>, trailing: bool, inner: bytes,
                              r: Parsed<Value>, read: Reader) {
    && r.Found? && r.len <= |s|
    && ItemsOk(items, read) && AllSpace(inner) && (trailing ==> items != [])
    && WriteItems(items, trailing, inner) == s[..r.len] && Table(FillItems(t, n, items, read)) == r.value
  }

  ghost predicate IsReadMembers(s: bytes, t: Fields, members: seq<Member>, trailing: bool, inner: bytes,
                                r: Parsed<Value>, read: Reader) {
    && r.Found? && r.len <= |s|
    && MembersOk(members, read) && AllSpace(inner) && (trailing ==> members != [])
    && WriteMembers(members, trailing, inner) == s[..r.len] && Table(FillMembers(t, members, read)) == r.value
  }

  lemma SkipsSpace(s: bytes)
    ensures AllSpace(s[..SkipSpace(s)])
  {
  }

  lemma ReadsOnlyWord(s: bytes, read: Reader) returns (c: Syntax)
    requires s != [] && (StartsNumber(s[0]) || StartsLiteral(s[0]))
    requires ValueAt(s, read).Found?
    ensures IsRead(s, c, ValueAt(s, read), read)
  {
    var x := WordLength(s);
    var w := s[..x];
    c := Word(w);
    assert w[0] == s[0];
  }

  lemma ReadsOnlyText(s: bytes) returns (pieces: seq<Piece>)
    requires s != [] && s[0] == QUOTE && ReadString(s).Found?
    ensures PiecesOk(pieces) && PiecesMeaning(pieces) == ReadString(s).value
    ensures Quoted(pieces) == s[..ReadString(s).len]
  {
    hide PiecesOk, PiecesMeaning, WritePieces;
    var t := s[1..];
    ReadsOnlyPieces(t);
    pieces := PiecesAt(t);
    assert s[..ReadString(s).len] == [QUOTE] + t[..ReadChars(t).len];
    assert [] + ReadChars(t).value == ReadChars(t).value;
    assert Quoted(pieces) == [QUOTE] + (WritePieces(pieces) + [QUOTE]);
  }

  /** Whatever the parser accepts is a well-formed value with that meaning. */
  lemma {:induction false} ReadsOnlySyntax(s: bytes, read: Reader) returns (c: Syntax)
    requires ValueAt(s, read).Found?
    ensures IsRead(s, c, ValueAt(s, read), read)
    decreases |s|, 0
  {
    hide ItemsAt, MembersAt, WriteItems, WriteMembers, ReadString, Quoted, PiecesMeaning, PiecesOk;
    var r := ValueAt(s, read);
    if s[0] == QUOTE {
      var pieces := ReadsOnlyText(s);
      c := Text(pieces);
    } else if StartsNumber(s[0]) || StartsLiteral(s[0]) {
      c := ReadsOnlyWord(s, read);
    } else if s[0] == LBRACKET {
      var items, trailing, inner := ReadsOnlyItems(s[1..], map[], 1, read);
      c := Array(items, trailing, inner);
      assert s[..r.len] == [LBRACKET] + s[1..][..r.len - 1];
    } else {
      var members, trailing, inner := ReadsOnlyMembers(s[1..], map[], read);
      c := Object(members, trailing, inner);
      assert s[..r.len] == [LBRACE] + s[1..][..r.len - 1];
    }
  }

  /** The item that one round read, with its white space. */
  lemma ItemOfRound(s: bytes, read: Reader) returns (item: Item)
    requires ItemRound(s, 0, read).Last? || ItemRound(s, 0, read).More?
    ensures var r := ItemRound(s, 0, read);
      && ItemOk(item, read) && Meaning(item.value, read) == r.item
      && WriteItem(item) + [if r.Last? then RBRACKET else COMMA] == s[..r.pos]
    decreases |s|, 1
  {
    hide ValueAt, Write, Meaning, SyntaxOk, Scan;
    assert s[0..] == s;
    var a := SkipSpace(s);
    SkipsSpace(s);
    var t := s[a..];
    var v := ReadsOnlySyntax(t, read);
    var at := a + ValueAt(t, read).len;
    var n := SkipSpace(s[at..]);
    SkipsSpace(s[at..]);
    item := Item(s[..a], v, s[at..][..n]);
    assert s[..at] == s[..a] + t[..at - a];
    assert s[..at + n] == s[..at] + s[at..][..n];
    assert s[..at + n + 1] == s[..at + n] + [s[at + n]];
  }

  /** An item, a comma and a list of items are a list of items; an empty rest
      makes the comma a trailing one. */
  lemma ConsItem(item: Item, tail: seq<Item>, trailing: bool, inner: bytes, t: Fields, n: int, read: Reader)
    requires ItemOk(item, read) && ItemsOk(tail, read)
    ensures var items := [item] + tail;
      && ItemsOk(items, read)
      && WriteItems(items, trailing || tail == [], inner)
           == WriteItem(item) + ([COMMA] + WriteItems(tail, trailing, inner))
      && FillItems(t, n, items, read)
           == FillItems(SetField(t, IntKey(n), Meaning(item.value, read)), n + 1, tail, read)
  {
    hide Write, WriteItem, Meaning, SyntaxOk;
    assert ([item] + tail)[1..] == tail;
  }

  lemma OneItem(item: Item, t: Fields, n: int, read: Reader)
    requires ItemOk(item, read)
    ensures ItemsOk([item], read) && WriteItems([item], false, []) == WriteItem(item) + [RBRACKET]
    ensures FillItems(t, n, [item], read) == SetField(t, IntKey(n), Meaning(item.value, read))
  {
    hide Write, WriteItem, Meaning, SyntaxOk;
    assert [item][1..] == [];
  }

  lemma {:induction false} ReadsOnlyItems(s: bytes, t: Fields, n: int, read: Reader)
    returns (items: seq<Item>, trailing: bool, inner: bytes)
    requires ItemsAt(s, t, n, read).Found?
    ensures IsReadItems(s, t, n, items, trailing, inner, ItemsAt(s, t, n, read), read)
    decreases |s|, 2
  {
    hide ValueAt, Write, WriteItem, Meaning, SyntaxOk, ItemRound;
    items, trailing, inner := [], false, [];
    match ItemRound(s, 0, read)
    case Close(j) =>
      inner := ArrayCloses(s, read);
    case Last(x, j) =>
      var item := ItemOfRound(s, read);
      items := [item];
      OneItem(item, t, n, read);
    case More(x, j) =>
      hide ItemsOk, WriteItems, FillItems;
      var item := ItemOfRound(s, read);
      var u, t' := s[j..], SetField(t, IntKey(n), x);
      var tail, tr, inn := ReadsOnlyItems(u, t', n + 1, read);
      items, trailing, inner := [item] + tail, tr || tail == [], inn;
      ConsItem(item, tail, tr, inner, t, n, read);
      JoinsText(s, j, u, ItemsAt(u, t', n + 1, read).len, WriteItem(item));
  }

  lemma JoinsText(s: bytes, j: nat, u: bytes, len: nat, w: bytes)
    requires j <= |s| && u == s[j..] && len <= |u| && w + [COMMA] == s[..j]
    ensures w + ([COMMA] + u[..len]) == s[..j + len]
  {
    assert s[..j + len] == s[..j] + u[..len];
  }

  lemma ArrayCloses(s: bytes, read: Reader) returns (inner: bytes)
    requires ItemRound(s, 0, read).Close?
    ensures AllSpace(inner) && inner + [RBRACKET] == s[..ItemRound(s, 0, read).pos]
  {
    hide ValueAt, Scan, AfterItem;
    assert s[0..] == s;
    SkipsSpace(s);
    inner := s[..SkipSpace(s)];
  }

  lemma ObjectCloses(s: bytes, read: Reader) returns (inner: bytes)
    requires MemberRound(s, 0, read).Close?
    ensures AllSpace(inner) && inner + [RBRACE] == s[..MemberRound(s, 0, read).pos]
  {
    hide ValueAt, Scan, ReadString, ColonAndValue;
    assert s[0..] == s;
    SkipsSpace(s);
    inner := s[..SkipSpace(s)];
  }

  lemma MemberOfRound(s: bytes, read: Reader) returns (m: Member)
    requires MemberRound(s, 0, read).Last? || MemberRound(s, 0, read).More?
    ensures var r := MemberRound(s, 0, read);
      && MemberOk(m, read) && PiecesMeaning(m.key) == r.item.0 && Meaning(m.value, read) == r.item.1
      && WriteMember(m) + [if r.Last? then RBRACE else COMMA] == s[..r.pos]
    decreases |s|, 1
  {
    hide ValueAt, Write, Meaning, SyntaxOk, Scan, ReadString, PiecesOk, PiecesMeaning, Quoted, ColonAndValue;
    assert s[0..] == s;
    var a := SkipSpace(s);
    SkipsSpace(s);
    var t := s[a..];
    var key := ReadsOnlyText(t);
    var i := a + ReadString(t).len;
    assert s[..i] == s[..a] + t[..i - a];
    m := ColonAndValueOf(s, i, s[..a], key, read);
  }

  lemma ColonAndValueOf(s: bytes, i: nat, before: bytes, key: seq<Piece>, read: Reader) returns (m: Member)
    requires 0 < i <= |s| && s[..i] == before + Quoted(key) && AllSpace(before) && PiecesOk(key)
    requires var r := ColonAndValue(s, i, PiecesMeaning(key), read); r.Last? || r.More?
    ensures m.key == key && MemberOk(m, read)
    ensures var r := ColonAndValue(s, i, PiecesMeaning(key), read);
      && r.item == (PiecesMeaning(key), Meaning(m.value, read))
      && WriteMember(m) + [if r.Last? then RBRACE else COMMA] == s[..r.pos]
    decreases |s| - i, 1
  {
    hide ValueAt, Write, Meaning, SyntaxOk, Scan, PiecesOk, PiecesMeaning, Quoted, AfterItem, ColonAndValue;
    var b, c := ColonAndSpace(s, i, PiecesMeaning(key), read);
    var v := ReadsOnlySyntax(s[c..], read);
    var at := c + ValueAt(s[c..], read).len;
    assert Write(v) == s[c..at];
    var d, after := EndOfItem(s, at, (PiecesMeaning(key), Meaning(v, read)), RBRACE);
    m := Member(before, key, s[i..b], s[b + 1..c], v, after);
    FourParts(s, i, b, c, at, d);
  }

  /** The colon behind a key at `b`, and the start of the value at `c`. */
  lemma ColonAndSpace(s: bytes, i: nat, key: bytes, read: Reader) returns (b: nat, c: nat)
    requires i <= |s|
    requires var r := ColonAndValue(s, i, key, read); r.Last? || r.More?
    ensures i <= b < c <= |s| && s[b] == COLON && AllSpace(s[i..b]) && AllSpace(s[b + 1..c])
    ensures ValueAt(s[c..], read).Found?
    ensures ColonAndValue(s, i, key, read)
      == AfterItem(s, c + ValueAt(s[c..], read).len, (key, ValueAt(s[c..], read).value), RBRACE)
  {
    hide ValueAt, Scan, AfterItem;
    b := i + SkipSpace(s[i..]);
    SkipsSpace(s[i..]);
    assert s[i..][..b - i] == s[i..b];
    c := b + 1 + SkipSpace(s[b + 1..]);
    SkipsSpace(s[b + 1..]);
    assert s[b + 1..][..c - b - 1] == s[b + 1..c];
  }

  /** A stretch of text cut at the colon at `b` and around the value from `c` to `at`. */
  lemma FourParts(s: bytes, i: nat, b: nat, c: nat, at: nat, d: nat)
    requires i <= b < c <= at <= d <= |s|
    ensures s[..d] == s[..i] + s[i..b] + [s[b]] + s[b + 1..c] + s[c..at] + s[at..d]
  {
  }

  /** The white space behind an item, up to the character at `d` that ends it. */
  lemma EndOfItem<T>(s: bytes, at: nat, item: T, close: byte) returns (d: nat, after: bytes)
    requires at <= |s|
    requires var r := AfterItem(s, at, item, close); r.Last? || r.More?
    ensures var r := AfterItem(s, at, item, close);
      && at <= d < |s| && r.pos == d + 1 && r.item == item
      && AllSpace(after) && after == s[at..d]
      && s[..d] + [if r.Last? then close else COMMA] == s[..r.pos]
  {
    d := at + SkipSpace(s[at..]);
    SkipsSpace(s[at..]);
    after := s[at..][..d - at];
  }

  lemma ConsMember(m: Member, tail: seq<Member>, trailing: bool, inner: bytes, t: Fields, read: Reader)
    requires MemberOk(m, read) && MembersOk(tail, read)
    ensures var members := [m] + tail;
      && MembersOk(members, read)
      && WriteMembers(members, trailing || tail == [], inner)
           == WriteMember(m) + ([COMMA] + WriteMembers(tail, trailing, inner))
      && FillMembers(t, members, read)
           == FillMembers(SetField(t, StrKey(PiecesMeaning(m.key)), Meaning(m.value, read)), tail, read)
  {
    hide Write, WriteMember, Meaning, SyntaxOk, PiecesOk, PiecesMeaning;
    assert ([m] + tail)[1..] == tail;
  }

  lemma OneMember(m: Member, t: Fields, read: Reader)
    requires MemberOk(m, read)
    ensures MembersOk([m], read) && WriteMembers([m], false, []) == WriteMember(m) + [RBRACE]
    ensures FillMembers(t, [m], read) == SetField(t, StrKey(PiecesMeaning(m.key)), Meaning(m.value, read))
  {
    hide Write, WriteMember, Meaning, SyntaxOk, PiecesOk, PiecesMeaning;
    assert [m][1..] == [];
  }

  lemma {:induction false} ReadsOnlyMembers(s: bytes, t: Fields, read: Reader)
    returns (members: seq<Member>, trailing: bool, inner: bytes)
    requires MembersAt(s, t, read).Found?
    ensures IsReadMembers(s, t, members, trailing, inner, MembersAt(s, t, read), read)
    decreases |s|, 2
  {
    hide ValueAt, Write, WriteMember, Meaning, SyntaxOk, PiecesOk, PiecesMeaning, MemberRound;
    members, trailing, inner := [], false, [];
    match MemberRound(s, 0, read)
    case Close(j) =>
      inner := ObjectCloses(s, read);
    case Last(kv, j) =>
      var m := MemberOfRound(s, read);
      members := [m];
      OneMember(m, t, read);
    case More(kv, j) =>
      hide MembersOk, WriteMembers, FillMembers;
      var m := MemberOfRound(s, read);
      var u, t' := s[j..], SetField(t, StrKey(kv.0), kv.1);
      var tail, tr, inn := ReadsOnlyMembers(u, t', read);
      members, trailing, inner := [m] + tail, tr || tail == [], inn;
      ConsMember(m, tail, tr, inner, t, read);
      JoinsText(s, j, u, MembersAt(u, t', read).len, WriteMember(m));
  }

  // ----- main results -----

  /** `s` is a well-formed value between white space that means `v`. */
  ghost predicate IsTextOf(s: bytes, pre: bytes, c: Syntax, post: bytes, v: Value, read: Reader) {
    && AllSpace(pre) && AllSpace(post) && SyntaxOk(c, read)
    && s == pre + Write(c) + post && Meaning(c, read) == v
  }

  lemma DecodesText(pre: bytes, c: Syntax, post: bytes, read: Reader)
    requires AllSpace(pre) && AllSpace(post) && SyntaxOk(c, read)
    ensures Decode(pre + Write(c) + post, read) == Success(Meaning(c, read))
  {
    hide ValueAt, Write, Meaning, SyntaxOk, Scan;
    var s, w := pre + Write(c) + post, Write(c);
    FirstByte(c, read);
    Associates(pre, w, post);
    assert s[0..] == s;
    SkipSpacePast(pre, w + post);
    DropPrefix(s, 0, pre, w + post);
    ReadsValue(c, post, read);
    DropPrefix(s, |pre|, w, post);
    SkipSpacePast(post, []);
    assert post + [] == post;
  }

  lemma DecodesOnlyText(s: bytes, read: Reader) returns (pre: bytes, c: Syntax, post: bytes)
    requires Decode(s, read).Success?
    ensures IsTextOf(s, pre, c, post, Decode(s, read).value, read)
  {
    hide ValueAt, Write, Meaning, SyntaxOk, Scan;
    var a := SkipSpace(s);
    SkipsSpace(s);
    var t := s[a..];
    c := ReadsOnlySyntax(t, read);
    var at := a + ValueAt(t, read).len;
    SkipsSpace(s[at..]);
    pre, post := s[..a], s[at..];
    assert post[..|post|] == post;
    assert s == pre + t[..at - a] + post;
  }

  /** `decode` succeeds on exactly the well-formed texts, and returns what they mean. */
  lemma DecodeAccepts(s: bytes, v: Value, read: Reader)
    ensures Decode(s, read) == Success(v) <==> exists pre, c, post :: IsTextOf(s, pre, c, post, v, read)
  {
    if Decode(s, read) == Success(v) {
      var pre, c, post := DecodesOnlyText(s, read);
    }
    forall pre, c, post | IsTextOf(s, pre, c, post, v, read)
      ensures Decode(s, read) == Success(v)
    {
      DecodesText(pre, c, post, read);
    }
  }
}
