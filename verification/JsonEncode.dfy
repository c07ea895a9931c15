/** The JSON printer on a heap of Lua tables: `encode`, `encode_table` and the
    set of tables on the current path that detects cycles. */
module JsonEncode {
  import opened Bytes
  import opened Wrappers
  import opened JsonText
  import opened JsonPieces
  import opened JsonNumber
  import opened JsonSyntax

  type TableId = nat

  /** What a Lua variable or field holds. Tables are held by reference. */
  datatype Ref =
    | RNil
    | RBool(b: bool)
    | RNum(n: real)
    | ROddNum              // NaN or an infinity
    | RStr(s: bytes)
    | RTable(id: TableId)
    | ROther               // a function, userdata or thread

  /** A table and the border that the length operator returns for it. */
  datatype LuaTable = LuaTable(fields: map<Key, Ref>, len: nat)

  type Heap = map<TableId, LuaTable>

  predicate RefOk(h: Heap, r: Ref) { r.RTable? ==> r.id in h }

  /** Fields are never nil, and `len` is a border. */
  predicate TableOk(h: Heap, t: LuaTable) {
    && (forall k :: k in t.fields ==> !t.fields[k].RNil? && RefOk(h, t.fields[k]))
    && (t.len == 0 || IntKey(t.len) in t.fields) && IntKey(t.len + 1) !in t.fields
  }

  predicate HeapOk(h: Heap) { forall id :: id in h ==> TableOk(h, h[id]) }

  // ----- which fields are printed -----

  predicate ArrayShaped(t: LuaTable) { IntKey(1) in t.fields || t.fields == map[] }

  predicate IsNumberKey(k: Key) { k.IntKey? || k.FloatKey? }

  /** The checks of `encode_table`: keys of one type, and no hole that shows in the length. */
  predicate ShapeOk(t: LuaTable) {
    if ArrayShaped(t) then (forall k :: k in t.fields ==> IsNumberKey(k)) && |t.fields| == t.len
    else forall k :: k in t.fields ==> k.StrKey?
  }

  /** The keys 1 to `n`. */
  function FirstKeys(n: nat): set<Key> { set i | 1 <= i <= n :: IntKey(i) }

  predicate HasFirst(t: LuaTable, n: nat) { forall i :: 1 <= i <= n ==> IntKey(i) in t.fields }

  lemma {:induction false} FirstKeysCount(n: nat)
    ensures |FirstKeys(n)| == n
  {
    if n > 0 {
      FirstKeysCount(n - 1);
      assert FirstKeys(n) == FirstKeys(n - 1) + {IntKey(n)};
    }
  }

  lemma NextKey(t: LuaTable, i: nat)
    requires HasFirst(t, i) && IntKey(i + 1) in t.fields
    ensures HasFirst(t, i + 1) && i < |t.fields|
  {
    FirstKeysCount(i + 1);
    var a, b := FirstKeys(i + 1), t.fields.Keys;
    assert a <= b && b == a + (b - a);
  }

  /** How far `ipairs` gets: the number of items before the first hole. */
  function PrefixFrom(t: LuaTable, i: nat): (p: nat)
    requires HasFirst(t, i)
    ensures i <= p && HasFirst(t, p) && IntKey(p + 1) !in t.fields
    decreases |t.fields| - i
  {
    if IntKey(i + 1) in t.fields then NextKey(t, i); PrefixFrom(t, i + 1) else i
  }

  function Prefix(t: LuaTable): nat { PrefixFrom(t, 0) }

  /** The keys whose values are encoded. */
  function Visited(t: LuaTable): (s: set<Key>)
    ensures s <= t.fields.Keys
  {
    if ArrayShaped(t) then FirstKeys(Prefix(t)) else t.fields.Keys
  }

  // ----- when encoding succeeds -----

  predicate ScalarOk(r: Ref) { !r.ROddNum? && !r.ROther? }

  /** `encode(r, stack)` succeeds when the tables on the stack are `path`. */
  predicate Encodable(h: Heap, r: Ref, path: set<TableId>)
    decreases h.Keys - path
  {
    if r.RTable? then
      r.id in h && r.id !in path && ShapeOk(h[r.id]) &&
      forall k :: k in Visited(h[r.id]) ==> Encodable(h, h[r.id].fields[k], path + {r.id})
    else ScalarOk(r)
  }

  // ----- what is printed -----

  function KeyOf(m: Member): bytes {
    if PiecesOk(m.key) then PiecesMeaning(m.key) else []
  }

  /** `c` writes out `r`, with the fields of each object in some order. */
  ghost predicate Presents(h: Heap, r: Ref, c: Syntax, format: Formatter)
    decreases c
  {
    match r
    case RNil => c == Word(NULL)
    case RBool(b) => c == Word(if b then TRUE else FALSE)
    case RNum(n) => c == Word(NumberText(n, format))
    case RStr(s) => c == Text(PiecesFor(s))
    case RTable(id) =>
      id in h &&
      (var t := h[id];
       if ArrayShaped(t) then
         c.Array? && !c.trailing && c.inner == [] && |c.items| == Prefix(t) &&
         forall i :: 0 <= i < |c.items| ==> PresentsItem(h, t, i, c.items[i], format)
       else
         c.Object? && !c.trailing && c.inner == [] && |c.members| == |t.fields| &&
         (forall i, j :: 0 <= i < j < |c.members| ==> KeyOf(c.members[i]) != KeyOf(c.members[j])) &&
         (forall i :: 0 <= i < |c.members| ==> PresentsMember(h, t, c.members[i], format)))
    case _ => false
  }

  ghost predicate PresentsItem(h: Heap, t: LuaTable, i: nat, item: Item, format: Formatter)
    decreases item
  {
    item.before == [] && item.after == [] && IntKey(i + 1) in t.fields &&
    Presents(h, t.fields[IntKey(i + 1)], item.value, format)
  }

  ghost predicate PresentsMember(h: Heap, t: LuaTable, m: Member, format: Formatter)
    decreases m
  {
    m.before == [] && m.beforeColon == [] && m.afterColon == [] && m.after == [] &&
    m.key == PiecesFor(KeyOf(m)) && StrKey(KeyOf(m)) in t.fields &&
    Presents(h, t.fields[StrKey(KeyOf(m))], m.value, format)
  }

  // ----- the printer -----

  /** The Lua table `stack`, used as a set. */
  class Stack {
    var onPath: set<TableId>

    constructor ()
      ensures onPath == {}
    {
      onPath := {};
    }
  }

  /** `table.concat(res, ",")`. */
  function Concat(res: seq<bytes>): bytes {
    if res == [] then [] else if |res| == 1 then res[0] else res[0] + [COMMA] + Concat(res[1..])
  }

  lemma {:induction false} ConcatItems(res: seq<bytes>, items: seq<Item>)
    requires |res| == |items|
    requires forall i :: 0 <= i < |items| ==> res[i] == WriteItem(items[i])
    ensures WriteItems(items, false, []) == Concat(res) + [RBRACKET]
  {
    hide WriteItem;
    if |items| > 1 {
      assert forall i :: 0 <= i < |items[1..]| ==> res[1..][i] == WriteItem(items[1..][i]);
      ConcatItems(res[1..], items[1..]);
    }
  }

  lemma {:induction false} ConcatMembers(res: seq<bytes>, members: seq<Member>)
    requires |res| == |members|
    requires forall i :: 0 <= i < |members| ==> res[i] == WriteMember(members[i])
    ensures WriteMembers(members, false, []) == Concat(res) + [RBRACE]
  {
    hide WriteMember;
    if |members| > 1 {
      assert forall i :: 0 <= i < |members[1..]| ==> res[1..][i] == WriteMember(members[1..][i]);
      ConcatMembers(res[1..], members[1..]);
    }
  }

  lemma QuotedPieces(s: bytes)
    ensures Quoted(PiecesFor(s)) == EncodeString(s)
  {
    PiecesForIs(s);
  }

  /** `encode`: dispatches on the type of the value. */
  method Encode(h: Heap, val: Ref, stack: Stack, format: Formatter) returns (r: Result<bytes>, ghost c: Syntax)
    requires HeapOk(h) && RefOk(h, val)
    modifies stack
    ensures r.Success? <==> Encodable(h, val, old(stack.onPath))
    ensures r.Success? ==> stack.onPath == old(stack.onPath)
    ensures r.Success? ==> r.value == Write(c) && Presents(h, val, c, format)
    decreases h.Keys - stack.onPath, 1
  {
    c := Word(NULL);
    match val
    case RNil =>
      return Success(NULL), Word(NULL);
    case RBool(b) =>
      var text := if b then TRUE else FALSE;
      return Success(text), Word(text);
    case RNum(n) =>
      return Success(NumberText(n, format)), Word(NumberText(n, format));
    case RStr(s) =>
      QuotedPieces(s);
      return Success(EncodeString(s)), Text(PiecesFor(s));
    case RTable(id) =>
      r, c := EncodeTable(h, id, stack, format);
    case ROddNum =>
      return Failure, c;
    case ROther =>
      return Failure, c;
  }

  method EncodeTable(h: Heap, id: TableId, stack: Stack, format: Formatter)
    returns (r: Result<bytes>, ghost c: Syntax)
    requires HeapOk(h) && id in h
    modifies stack
    ensures r.Success? <==> Encodable(h, RTable(id), old(stack.onPath))
    ensures r.Success? ==> stack.onPath == old(stack.onPath)
    ensures r.Success? ==> r.value == Write(c) && Presents(h, RTable(id), c, format)
    decreases h.Keys - stack.onPath, 0
  {
    c := Word(NULL);
    ghost var path := stack.onPath;
    if id in stack.onPath {
      return Failure, c;
    }
    stack.onPath := stack.onPath + {id};
    assert h.Keys - stack.onPath < h.Keys - path by { assert id in h.Keys - path; }
    var t := h[id];
    if IntKey(1) in t.fields || t.fields == map[] {
      var ok := CheckArray(t);
      if !ok {
        return Failure, c;
      }
      ghost var items: seq<Item>;
      r, items := EncodeItems(h, t, stack, format);
      if r.Failure? {
        return;
      }
      c := Array(items, false, []);
    } else {
      ghost var members: seq<Member>;
      r, members := EncodeMembers(h, t, stack, format);
      if r.Failure? {
        return;
      }
      c := Object(members, false, []);
    }
    stack.onPath := stack.onPath - {id};
    assert path + {id} - {id} == path;
  }

  /** The first loop of the array branch: every key is a number, and as many
      keys as the length. `pairs` may list them in any order. */
  method CheckArray(t: LuaTable) returns (ok: bool)
    requires ArrayShaped(t)
    ensures ok == ShapeOk(t)
  {
    var n := 0;
    var todo := t.fields.Keys;
    while todo != {}
      invariant todo <= t.fields.Keys && n + |todo| == |t.fields|
      invariant forall k :: k in t.fields && k !in todo ==> IsNumberKey(k)
      decreases todo
    {
      var k :| k in todo;
      if !IsNumberKey(k) {
        return false;
      }
      n := n + 1;
      todo := todo - {k};
    }
    return n == t.len;
  }

  /** The `ipairs` loop. */
  method EncodeItems(h: Heap, t: LuaTable, stack: Stack, format: Formatter)
    returns (r: Result<bytes>, ghost items: seq<Item>)
    requires HeapOk(h) && TableOk(h, t) && ArrayShaped(t)
    modifies stack
    ensures r.Success? <==>
      forall k :: k in Visited(t) ==> Encodable(h, t.fields[k], old(stack.onPath))
    ensures r.Success? ==>
      && stack.onPath == old(stack.onPath) && |items| == Prefix(t)
      && (forall i :: 0 <= i < |items| ==> PresentsItem(h, t, i, items[i], format))
      && r.value == [LBRACKET] + WriteItems(items, false, [])
    decreases h.Keys - stack.onPath, 2
  {
    hide Presents, Encodable, WriteItems, Write;
    ghost var path := stack.onPath;
    var res: seq<bytes> := [];
    items := [];
    var i := 0;
    while IntKey(i + 1) in t.fields
      invariant HasFirst(t, i) && PrefixFrom(t, i) == Prefix(t)
      invariant |res| == |items| == i && stack.onPath == path
      invariant forall k :: k in FirstKeys(i) ==> Encodable(h, t.fields[k], path)
      invariant forall j :: 0 <= j < i ==> PresentsItem(h, t, j, items[j], format)
      invariant forall j :: 0 <= j < i ==> res[j] == WriteItem(items[j])
      decreases |t.fields| - i
    {
      NextKey(t, i);
      var text, c := Encode(h, t.fields[IntKey(i + 1)], stack, format);
      if text.Failure? {
        assert IntKey(i + 1) in Visited(t);
        return Failure, items;
      }
      res := res + [text.value];
      items := items + [Item([], c, [])];
      i := i + 1;
    }
    ConcatItems(res, items);
    return Success([LBRACKET] + Concat(res) + [RBRACKET]), items;
  }

  /** The `pairs` loop of the object branch, in whatever order it lists the fields. */
  method EncodeMembers(h: Heap, t: LuaTable, stack: Stack, format: Formatter)
    returns (r: Result<bytes>, ghost members: seq<Member>)
    requires HeapOk(h) && TableOk(h, t) && !ArrayShaped(t)
    modifies stack
    ensures r.Success? <==>
      ShapeOk(t) && forall k :: k in Visited(t) ==> Encodable(h, t.fields[k], old(stack.onPath))
    ensures r.Success? ==>
      && stack.onPath == old(stack.onPath) && |members| == |t.fields|
      && (forall i, j :: 0 <= i < j < |members| ==> KeyOf(members[i]) != KeyOf(members[j]))
      && (forall i :: 0 <= i < |members| ==> PresentsMember(h, t, members[i], format))
      && r.value == [LBRACE] + WriteMembers(members, false, [])
    decreases h.Keys - stack.onPath, 2
  {
    hide Presents, PresentsMember, Encodable, KeyOf, WriteMember, WriteMembers, EscapeAll, EncodeString, PrefixFrom;
    ghost var path := stack.onPath;
    var res: seq<bytes> := [];
    members := [];
    var todo := t.fields.Keys;
    while todo != {}
      invariant todo <= t.fields.Keys && |members| + |todo| == |t.fields|
      invariant |res| == |members| && stack.onPath == path
      invariant forall k :: k in t.fields && k !in todo ==> k.StrKey? && Encodable(h, t.fields[k], path)
      invariant forall i :: 0 <= i < |members| ==> StrKey(KeyOf(members[i])) !in todo
      invariant forall i, j :: 0 <= i < j < |members| ==> KeyOf(members[i]) != KeyOf(members[j])
      invariant forall i :: 0 <= i < |members| ==> PresentsMember(h, t, members[i], format)
      invariant forall i :: 0 <= i < |members| ==> res[i] == WriteMember(members[i])
      decreases todo
    {
      var k :| k in todo;
      if !k.StrKey? {
        return Failure, members;
      }
      var text, c := Encode(h, t.fields[k], stack, format);
      if text.Failure? {
        return Failure, members;
      }
      ghost var m := FreshMember(h, t, k.s, c, format);
      res := res + [EncodeString(k.s) + [COLON] + text.value];
      members := members + [m];
      todo := todo - {k};
    }
    ConcatMembers(res, members);
    return Success([LBRACE] + Concat(res) + [RBRACE]), members;
  }

  lemma FreshMember(h: Heap, t: LuaTable, key: bytes, c: Syntax, format: Formatter) returns (m: Member)
    requires StrKey(key) in t.fields && Presents(h, t.fields[StrKey(key)], c, format)
    ensures KeyOf(m) == key && PresentsMember(h, t, m, format)
    ensures WriteMember(m) == EncodeString(key) + [COLON] + Write(c)
  {
    m := Member([], PiecesFor(key), [], [], c, []);
    PiecesForIs(key);
    QuotedPieces(key);
  }

  /** `json.encode`: the stack starts empty. */
  method EncodeJson(h: Heap, val: Ref, format: Formatter) returns (r: Result<bytes>, ghost c: Syntax)
    requires HeapOk(h) && RefOk(h, val)
    ensures r.Success? <==> Encodable(h, val, {})
    ensures r.Success? ==> r.value == Write(c) && Presents(h, val, c, format)
  {
    var stack := new Stack();
    r, c := Encode(h, val, stack, format);
  }
}
