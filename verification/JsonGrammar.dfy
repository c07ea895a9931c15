/** The parser accepts exactly the well-formed texts and returns what they mean. */
module JsonGrammar {
  import opened Bytes
  import opened Wrappers
  import opened JsonText
  import opened JsonString
  import opened JsonPieces
  import opened JsonNumber
  import opened JsonSyntax
  import opened JsonDecode

  // ----- every well-formed text is read -----

  /** A value starts with a character that is neither white space nor closes anything. */
  lemma FirstByte(c: Syntax, read: Reader)
    requires SyntaxOk(c, read)
    ensures Write(c) != []
    ensures var b := Write(c)[0]; !IsSpace(b) && b != RBRACKET && b != RBRACE
  {
  }

  lemma ReadsWord(w: bytes, post: bytes, read: Reader)
    requires SyntaxOk(Word(w), read) && Delimited(post)
    ensures ValueAt(w + post, read) == Found(Meaning(Word(w), read), |w|)
  {
    var s := w + post;
    WordLengthIs(w, post);
    assert s[..|w|] == w && s[0] == w[0];
  }

  lemma ReadsQuoted(pieces: seq<Piece>, post: bytes)
    requires PiecesOk(pieces)
    ensures ReadString(Quoted(pieces) + post) == Found(PiecesMeaning(pieces), |Quoted(pieces)|)
  {
    var s := Quoted(pieces) + post;
    assert s[1..] == WritePieces(pieces) + [QUOTE] + post;
    ReadsPieces(pieces, post);
    assert [] + PiecesMeaning(pieces) == PiecesMeaning(pieces);
  }

  /** `rest` starts with what may follow an item. */
  predicate Ends(rest: bytes, close: byte) {
    rest != [] && (rest[0] == close || rest[0] == COMMA)
  }

  /** The round that ends at position `j`, just past the start of `rest`. */
  function EndRound<T>(rest: bytes, close: byte, item: T, j: nat): Round<T>
    requires Ends(rest, close)
  {
    if rest[0] == close then Last(item, j) else More(item, j)
  }

  /** The parser reads `c` in front of `post`. */
  predicate ReadsIn(c: Syntax, post: bytes, read: Reader) {
    SyntaxOk(c, read) && ValueAt(Write(c) + post, read) == Found(Meaning(c, read), |Write(c)|)
  }

  /** White space and then the start of `rest` end an item. */
  lemma EndsItem<T>(s: bytes, at: nat, after: bytes, rest: bytes, item: T, close: byte)
    requires at <= |s| && s[at..] == after + rest
    requires AllSpace(after) && Ends(rest, close) && !IsSpace(close)
    ensures AfterItem(s, at, item, close) == EndRound(rest, close, item, at + |after| + 1)
  {
    SkipSpacePast(after, rest);
    assert s[at + |after|] == rest[0];
  }

  /** An item is read in one round, given that its value is read. */
  lemma ReadsItem(item: Item, rest: bytes, read: Reader)
    requires ItemOk(item, read) && Ends(rest, RBRACKET) && ReadsIn(item.value, item.after + rest, read)
    ensures ItemRound(WriteItem(item) + rest, 0, read)
         == EndRound(rest, RBRACKET, Meaning(item.value, read), |WriteItem(item)| + 1)
  {
    hide ValueAt, Write, Meaning, SyntaxOk, AfterItem, EndRound, Scan;
    var s, v := WriteItem(item) + rest, Write(item.value);
    var a, x := |item.before|, v + (item.after + rest);
    FirstByte(item.value, read);
    assert s[0..] == item.before + x;
    SkipSpacePast(item.before, x);
    DropPrefix(s, 0, item.before, x);
    DropPrefix(s, a, v, item.after + rest);
    EndsItem(s, a + |v|, item.after, rest, Meaning(item.value, read), RBRACKET);
  }

  lemma DelimitedAfter(after: bytes, rest: bytes)
    requires AllSpace(after) && rest != [] && IsDelim(rest[0])
    ensures Delimited(after + rest)
  {
  }

  /** What is read after the key of a member. */
  function ColonValue(m: Member, rest: bytes): bytes {
    m.beforeColon + ([COLON] + (m.afterColon + (Write(m.value) + (m.after + rest))))
  }

  lemma MemberText(m: Member, rest: bytes)
    ensures WriteMember(m) + rest == m.before + (Quoted(m.key) + ColonValue(m, rest))
    ensures |WriteMember(m)| == |m.before| + |Quoted(m.key)| + |ColonValue(m, rest)| - |rest|
  {
    hide Write, Quoted;
    var q, v := Quoted(m.key), Write(m.value);
    assert ColonValue(m, rest) == m.beforeColon + [COLON] + m.afterColon + v + m.after + rest;
  }

  lemma ReadsMember(m: Member, rest: bytes, read: Reader)
    requires MemberOk(m, read) && Ends(rest, RBRACE) && ReadsIn(m.value, m.after + rest, read)
    ensures MemberRound(WriteMember(m) + rest, 0, read)
         == EndRound(rest, RBRACE, (PiecesMeaning(m.key), Meaning(m.value, read)), |WriteMember(m)| + 1)
  {
    hide ValueAt, Write, Meaning, SyntaxOk, ReadString, Quoted, PiecesMeaning, PiecesOk;
    hide ColonAndValue, EndRound, Scan, WriteMember, ColonValue, ReadsIn;
    var s, q, tail := WriteMember(m) + rest, Quoted(m.key), ColonValue(m, rest);
    var a := |m.before|;
    QuotedIs(m.key);
    MemberText(m, rest);
    assert s[0..] == s;
    SkipSpacePast(m.before, q + tail);
    DropPrefix(s, 0, m.before, q + tail);
    DropPrefix(s, a, q, tail);
    ReadsQuoted(m.key, tail);
    ReadsColonAndValue(s, a + |q|, m, rest, read);
  }

  lemma QuotedIs(pieces: seq<Piece>)
    ensures Quoted(pieces) != [] && Quoted(pieces)[0] == QUOTE
    ensures Quoted(pieces) == [QUOTE] + WritePieces(pieces) + [QUOTE]
  {
  }

  lemma ReadsColonAndValue(s: bytes, i: nat, m: Member, rest: bytes, read: Reader)
    requires MemberOk(m, read) && Ends(rest, RBRACE) && ReadsIn(m.value, m.after + rest, read)
    requires i <= |s| && s[i..] == ColonValue(m, rest)
    ensures ColonAndValue(s, i, PiecesMeaning(m.key), read)
         == EndRound(rest, RBRACE, (PiecesMeaning(m.key), Meaning(m.value, read)), |s| - |rest| + 1)
  {
    hide ValueAt, Write, Meaning, SyntaxOk, AfterItem, PiecesMeaning, PiecesOk, Scan, EndRound, ReadsIn;
    var x := Write(m.value) + (m.after + rest);
    var b := ReachesColon(s, i, m, x);
    var c := ReachesValue(s, b, m, x, read);
    EndsMember(s, c, m, rest, PiecesMeaning(m.key), read);
  }

  lemma ReachesColon(s: bytes, i: nat, m: Member, x: bytes) returns (b: nat)
    requires i <= |s| && s[i..] == m.beforeColon + ([COLON] + (m.afterColon + x)) && AllSpace(m.beforeColon)
    ensures i <= b < |s| && b == i + SkipSpace(s[i..]) && s[b] == COLON
    ensures s[b + 1..] == m.afterColon + x
  {
    var y := [COLON] + (m.afterColon + x);
    SkipSpacePast(m.beforeColon, y);
    b := i + |m.beforeColon|;
    DropPrefix(s, i, m.beforeColon, y);
    DropPrefix(s, b, [COLON], m.afterColon + x);
  }

  lemma ReachesValue(s: bytes, b: nat, m: Member, x: bytes, read: Reader) returns (c: nat)
    requires MemberOk(m, read) && Write(m.value) <= x
    requires b < |s| && s[b + 1..] == m.afterColon + x
    ensures c == b + 1 + SkipSpace(s[b + 1..]) && c <= |s| && s[c..] == x
  {
    hide Write, SyntaxOk, PiecesOk;
    FirstByte(m.value, read);
    SkipSpacePast(m.afterColon, x);
    DropPrefix(s, b + 1, m.afterColon, x);
    c := b + 1 + |m.afterColon|;
  }

  /** From the value on: it is read, and then the end of the member. */
  lemma EndsMember(s: bytes, c: nat, m: Member, rest: bytes, key: bytes, read: Reader)
    requires MemberOk(m, read) && Ends(rest, RBRACE) && ReadsIn(m.value, m.after + rest, read)
    requires c <= |s| && s[c..] == Write(m.value) + (m.after + rest)
    ensures var k := c + |Write(m.value)|;
      && k <= |s| && ValueAt(s[c..], read) == Found(Meaning(m.value, read), |Write(m.value)|)
      && AfterItem(s, k, (key, Meaning(m.value, read)), RBRACE)
           == EndRound(rest, RBRACE, (key, Meaning(m.value, read)), |s| - |rest| + 1)
  {
    hide ValueAt, Write, Meaning, SyntaxOk, AfterItem, PiecesOk, Scan, EndRound;
    DropPrefix(s, c, Write(m.value), m.after + rest);
    EndsItem(s, c + |Write(m.value)|, m.after, rest, (key, Meaning(m.value, read)), RBRACE);
  }

  /** In any context the parser reads a well-formed value to its meaning and
      stops exactly at its end. Only a number or a literal needs a delimiter
      behind it. */
  lemma {:induction false} ReadsValue(c: Syntax, post: bytes, read: Reader)
    requires SyntaxOk(c, read)
    requires c.Word? ==> Delimited(post)
    ensures ValueAt(Write(c) + post, read) == Found(Meaning(c, read), |Write(c)|)
    decreases c
  {
    hide ReadString, ItemsAt, MembersAt, WriteItems, WriteMembers, Quoted, PiecesMeaning, PiecesOk;
    var s := Write(c) + post;
    match c
    case Word(w) =>
      ReadsWord(w, post, read);
    case Text(pieces) =>
      QuotedIs(pieces);
      ReadsQuoted(pieces, post);
    case Array(items, trailing, inner) =>
      assert s[1..] == WriteItems(items, trailing, inner) + post;
      ReadsItems(items, trailing, inner, map[], 1, post, read);
    case Object(members, trailing, inner) =>
      assert s[1..] == WriteMembers(members, trailing, inner) + post;
      ReadsMembers(members, trailing, inner, map[], post, read);
  }

  /** One round of a list of items, given what the round finds. */
  lemma ItemsStep(s: bytes, len: nat, x: Value, t: Fields, n: int, read: Reader)
    requires ItemRound(s, 0, read) == More(x, len) && len <= |s|
    ensures ItemsAt(s, t, n, read) == Shift(len, ItemsAt(s[len..], SetField(t, IntKey(n), x), n + 1, read))
  {
    hide ItemRound;
  }

  lemma MembersStep(s: bytes, len: nat, k: bytes, x: Value, t: Fields, read: Reader)
    requires MemberRound(s, 0, read) == More((k, x), len) && len <= |s|
    ensures MembersAt(s, t, read) == Shift(len, MembersAt(s[len..], SetField(t, StrKey(k), x), read))
  {
    hide MemberRound;
  }

  lemma {:induction false} ReadsItems(
    items: seq<Item>, trailing: bool, inner: bytes, t: Fields, n: int, post: bytes, read: Reader)
    requires ItemsOk(items, read) && AllSpace(inner)
    ensures ItemsAt(WriteItems(items, trailing, inner) + post, t, n, read)
      == Found(Table(FillItems(t, n, items, read)), |WriteItems(items, trailing, inner)|)
    decreases items
  {
    hide ValueAt, Write, WriteItem, Meaning, SyntaxOk, ItemRound, Scan;
    var s := WriteItems(items, trailing, inner) + post;
    if items == [] {
      assert s == inner + ([RBRACKET] + post);
      SkipSpacePast(inner, [RBRACKET] + post);
      ClosesArray(s, |inner|, read);
    } else {
      var item, tail := items[0], items[1..];
      var x, len := Meaning(item.value, read), |WriteItem(item)| + 1;
      var last := |items| == 1 && !trailing;
      var rest := if last then [RBRACKET] + post else [COMMA] + (WriteItems(tail, trailing, inner) + post);
      assert s == WriteItem(item) + rest;
      DelimitedAfter(item.after, rest);
      ReadsValue(item.value, item.after + rest, read);
      ReadsItem(item, rest, read);
      if last {
        assert tail == [];
      } else {
        ItemsStep(s, len, x, t, n, read);
        assert s[len..] == WriteItems(tail, trailing, inner) + post;
        ReadsItems(tail, trailing, inner, SetField(t, IntKey(n), x), n + 1, post, read);
      }
    }
  }

  lemma ClosesArray(s: bytes, a: nat, read: Reader)
    requires a < |s| && SkipSpace(s) == a && s[a] == RBRACKET
    ensures ItemRound(s, 0, read) == Close(a + 1)
  {
    assert s[0..] == s;
  }

  lemma ClosesObject(s: bytes, a: nat, read: Reader)
    requires a < |s| && SkipSpace(s) == a && s[a] == RBRACE
    ensures MemberRound(s, 0, read) == Close(a + 1)
  {
    assert s[0..] == s;
  }

  lemma {:induction false} ReadsMembers(
    members: seq<Member>, trailing: bool, inner: bytes, t: Fields, post: bytes, read: Reader)
    requires MembersOk(members, read) && AllSpace(inner)
    ensures MembersAt(WriteMembers(members, trailing, inner) + post, t, read)
      == Found(Table(FillMembers(t, members, read)), |WriteMembers(members, trailing, inner)|)
    decreases members
  {
    hide ValueAt, Write, WriteMember, Meaning, SyntaxOk, MemberRound, PiecesMeaning, PiecesOk, Scan;
    var s := WriteMembers(members, trailing, inner) + post;
    if members == [] {
      assert s == inner + ([RBRACE] + post);
      SkipSpacePast(inner, [RBRACE] + post);
      ClosesObject(s, |inner|, read);
    } else {
      var m, tail := members[0], members[1..];
      var k, x, len := PiecesMeaning(m.key), Meaning(m.value, read), |WriteMember(m)| + 1;
      var last := |members| == 1 && !trailing;
      var rest := if last then [RBRACE] + post else [COMMA] + (WriteMembers(tail, trailing, inner) + post);
      assert s == WriteMember(m) + rest;
      DelimitedAfter(m.after, rest);
      ReadsValue(m.value, m.after + rest, read);
      ReadsMember(m, rest, read);
      if last {
        assert tail == [];
      } else {
        MembersStep(s, len, k, x, t, read);
        assert s[len..] == WriteMembers(tail, trailing, inner) + post;
        ReadsMembers(tail, trailing, inner, SetField(t, StrKey(k), x), post, read);
      }
    }
  }
}
