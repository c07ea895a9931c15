/** White space and trailing commas carry no meaning. */
module JsonLayout {
  import opened Bytes
  import opened JsonText
  import opened JsonPieces
  import opened JsonNumber
  import opened JsonSyntax
  import opened JsonDecode
  import opened JsonAccepts

  /** The same tokens with no white space between them and no trailing comma. */
  function Strip(c: Syntax): Syntax
    decreases c
  {
    match c
    case Word(_) => c
    case Text(_) => c
    case Array(items, _, _) => Array(StripItems(items), false, [])
    case Object(members, _, _) => Object(StripMembers(members), false, [])
  }

  function StripItems(items: seq<Item>): seq<Item>
    decreases items
  {
    if items == [] then [] else [Item([], Strip(items[0].value), [])] + StripItems(items[1..])
  }

  function StripMembers(members: seq<Member>): seq<Member>
    decreases members
  {
    if members == [] then []
    else [Member([], members[0].key, [], [], Strip(members[0].value), [])] + StripMembers(members[1..])
  }

  lemma {:induction false} StripKeeps(c: Syntax, read: Reader)
    requires SyntaxOk(c, read)
    ensures SyntaxOk(Strip(c), read) && Meaning(Strip(c), read) == Meaning(c, read)
    decreases c
  {
    match c
    case Word(_) =>
    case Text(_) =>
    case Array(items, _, _) => StripItemsKeeps(items, map[], 1, read);
    case Object(members, _, _) => StripMembersKeeps(members, map[], read);
  }

  lemma {:induction false} StripItemsKeeps(items: seq<Item>, t: Fields, n: int, read: Reader)
    requires ItemsOk(items, read)
    ensures ItemsOk(StripItems(items), read)
    ensures FillItems(t, n, StripItems(items), read) == FillItems(t, n, items, read)
    decreases items
  {
    hide Meaning, SyntaxOk, Strip;
    if items != [] {
      var head := Item([], Strip(items[0].value), []);
      assert ItemOk(items[0], read);
      StripKeeps(items[0].value, read);
      StripItemsKeeps(items[1..], SetField(t, IntKey(n), Meaning(items[0].value, read)), n + 1, read);
      assert StripItems(items)[0] == head && StripItems(items)[1..] == StripItems(items[1..]);
    }
  }

  lemma {:induction false} StripMembersKeeps(members: seq<Member>, t: Fields, read: Reader)
    requires MembersOk(members, read)
    ensures MembersOk(StripMembers(members), read)
    ensures FillMembers(t, StripMembers(members), read) == FillMembers(t, members, read)
    decreases members
  {
    hide Meaning, SyntaxOk, Strip, PiecesOk, PiecesMeaning;
    if members != [] {
      var m := members[0];
      var head := Member([], m.key, [], [], Strip(m.value), []);
      assert MemberOk(m, read);
      StripKeeps(m.value, read);
      StripMembersKeeps(members[1..],
                        SetField(t, StrKey(PiecesMeaning(m.key)), Meaning(m.value, read)), read);
      assert StripMembers(members)[0] == head && StripMembers(members)[1..] == StripMembers(members[1..]);
    }
  }

  /** Two texts with the same tokens decode to the same value, however they are laid out. */
  lemma LayoutIsIgnored(pre: bytes, c: Syntax, post: bytes, pre': bytes, c': Syntax, post': bytes, read: Reader)
    requires AllSpace(pre) && AllSpace(post) && AllSpace(pre') && AllSpace(post')
    requires SyntaxOk(c, read) && SyntaxOk(c', read) && Strip(c) == Strip(c')
    ensures Decode(pre + Write(c) + post, read).Success?
    ensures Decode(pre + Write(c) + post, read) == Decode(pre' + Write(c') + post', read)
  {
    StripKeeps(c, read);
    StripKeeps(c', read);
    DecodesText(pre, c, post, read);
    DecodesText(pre', c', post', read);
  }
}
