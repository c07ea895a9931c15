/** Lua values and the texts that mean them. */
module JsonSyntax {
  import opened Bytes
  import opened Wrappers
  import opened JsonText
  import opened JsonPieces
  import opened JsonNumber

  /** A key of a Lua table. */
  datatype Key = StrKey(s: bytes) | IntKey(i: int) | FloatKey(r: real) | OtherKey(id: int)

  /** What `decode` builds. A table is its fields, so `[]` and `{}` are the same value. */
  datatype Value =
    | Nil
    | Boolean(b: bool)
    | Number(n: real)
    | String(s: bytes)
    | Table(fields: map<Key, Value>)

  type Fields = map<Key, Value>

  /** `t[k] = v`: assigning nil removes the field. */
  function SetField(t: Fields, k: Key, v: Value): Fields {
    if v.Nil? then t - {k} else t[k := v]
  }

  /** A written value with its white space; strings keep how they are spelled. */
  datatype Syntax =
    | Word(text: bytes)
    | Text(pieces: seq<Piece>)
    | Array(items: seq<Item>, trailing: bool, inner: bytes)
    | Object(members: seq<Member>, trailing: bool, inner: bytes)

  datatype Item = Item(before: bytes, value: Syntax, after: bytes)

  datatype Member =
    Member(before: bytes, key: seq<Piece>, beforeColon: bytes, afterColon: bytes, value: Syntax, after: bytes)

  // ----- the text -----

  function Write(c: Syntax): bytes
    decreases c
  {
    match c
    case Word(text) => text
    case Text(pieces) => Quoted(pieces)
    case Array(items, trailing, inner) => [LBRACKET] + WriteItems(items, trailing, inner)
    case Object(members, trailing, inner) => [LBRACE] + WriteMembers(members, trailing, inner)
  }

  function Quoted(pieces: seq<Piece>): bytes { [QUOTE] + WritePieces(pieces) + [QUOTE] }

  /** The items up to and including the closing bracket. */
  function WriteItems(items: seq<Item>, trailing: bool, inner: bytes): bytes
    decreases items
  {
    if items == [] then inner + [RBRACKET]
    else
      WriteItem(items[0]) +
      (if |items| == 1 && !trailing then [RBRACKET] else [COMMA] + WriteItems(items[1..], trailing, inner))
  }

  function WriteItem(item: Item): bytes
    decreases item
  {
    item.before + Write(item.value) + item.after
  }

  function WriteMembers(members: seq<Member>, trailing: bool, inner: bytes): bytes
    decreases members
  {
    if members == [] then inner + [RBRACE]
    else
      WriteMember(members[0]) +
      (if |members| == 1 && !trailing then [RBRACE] else [COMMA] + WriteMembers(members[1..], trailing, inner))
  }

  function WriteMember(m: Member): bytes
    decreases m
  {
    m.before + Quoted(m.key) + m.beforeColon + [COLON] + m.afterColon + Write(m.value) + m.after
  }

  // ----- which texts are well formed -----

  /** A number or one of the three literals. */
  function WordMeaning(w: bytes, read: Reader): Option<Value> {
    if w == [] then None
    else if StartsNumber(w[0]) then
      match ToNumber(w, read)
      case Some(n) => Some(Number(n))
      case None => None
    else if w == TRUE then Some(Boolean(true))
    else if w == FALSE then Some(Boolean(false))
    else if w == NULL then Some(Nil)
    else None
  }

  predicate SyntaxOk(c: Syntax, read: Reader)
    decreases c
  {
    match c
    case Word(w) => NoDelim(w) && WordMeaning(w, read).Some?
    case Text(pieces) => PiecesOk(pieces)
    case Array(items, trailing, inner) =>
      (trailing ==> items != []) && AllSpace(inner) && ItemsOk(items, read)
    case Object(members, trailing, inner) =>
      (trailing ==> members != []) && AllSpace(inner) && MembersOk(members, read)
  }

  predicate ItemsOk(items: seq<Item>, read: Reader)
    decreases items
  {
    items == [] || (ItemOk(items[0], read) && ItemsOk(items[1..], read))
  }

  predicate ItemOk(item: Item, read: Reader)
    decreases item
  {
    AllSpace(item.before) && SyntaxOk(item.value, read) && AllSpace(item.after)
  }

  predicate MembersOk(members: seq<Member>, read: Reader)
    decreases members
  {
    members == [] || (MemberOk(members[0], read) && MembersOk(members[1..], read))
  }

  predicate MemberOk(m: Member, read: Reader)
    decreases m
  {
    && AllSpace(m.before) && PiecesOk(m.key) && AllSpace(m.beforeColon) && AllSpace(m.afterColon)
    && SyntaxOk(m.value, read) && AllSpace(m.after)
  }

  // ----- the meaning -----

  function Meaning(c: Syntax, read: Reader): Value
    requires SyntaxOk(c, read)
    decreases c
  {
    match c
    case Word(w) => WordMeaning(w, read).value
    case Text(pieces) => String(PiecesMeaning(pieces))
    case Array(items, _, _) => Table(FillItems(map[], 1, items, read))
    case Object(members, _, _) => Table(FillMembers(map[], members, read))
  }

  /** The table after items are stored at `n` and up. */
  function FillItems(t: Fields, n: int, items: seq<Item>, read: Reader): Fields
    requires ItemsOk(items, read)
    decreases items
  {
    if items == [] then t
    else
      assert ItemOk(items[0], read);
      FillItems(SetField(t, IntKey(n), Meaning(items[0].value, read)), n + 1, items[1..], read)
  }

  /** The table after members are stored in order: the last one with a key wins. */
  function FillMembers(t: Fields, members: seq<Member>, read: Reader): Fields
    requires MembersOk(members, read)
    decreases members
  {
    if members == [] then t
    else
      assert MemberOk(members[0], read);
      FillMembers(SetField(t, StrKey(PiecesMeaning(members[0].key)), Meaning(members[0].value, read)),
                  members[1..], read)
  }
}
