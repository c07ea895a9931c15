/** What `json.encode` prints, byte by byte. */
module JsonPrinted {
  import opened Bytes
  import opened JsonString
  import opened JsonPieces
  import opened JsonNumber
  import opened JsonSyntax
  import opened JsonEncode

  // ----- strings -----

  /** A byte between the quotes: the short escapes, `\u00xx` in lower case for the
      other control bytes, and anything else as it is. */
  function Shown(c: byte): bytes {
    if c == 34 then [92, 34]
    else if c == 92 then [92, 92]
    else if c == 8 then [92, 98]
    else if c == 12 then [92, 102]
    else if c == 10 then [92, 110]
    else if c == 13 then [92, 114]
    else if c == 9 then [92, 116]
    else if c < 32 then
      [92, 117, 48, 48, LOWER_DIGITS[c / 16] as int % 256, LOWER_DIGITS[c % 16] as int % 256]
    else [c]
  }

  function ShownAll(s: bytes): bytes { if s == [] then [] else Shown(s[0]) + ShownAll(s[1..]) }

  lemma EscapeAsShown(c: byte)
    ensures (if NeedsEscape(c) then EscapeChar(c) else [c]) == Shown(c)
  {
    if c < 32 {
      DigitTable(0);
      DigitTable(c / 16);
      DigitTable(c % 16);
    }
  }

  lemma {:induction false} EscapesAsShown(s: bytes)
    ensures EscapeAll(s) == ShownAll(s)
  {
    hide Shown, EscapeChar, NeedsEscape;
    if s != [] {
      EscapeAsShown(s[0]);
      EscapesAsShown(s[1..]);
    }
  }

  lemma QuotesAsShown(s: bytes)
    ensures PiecesOk(PiecesFor(s)) && Quoted(PiecesFor(s)) == [34] + ShownAll(s) + [34]
  {
    PiecesForIs(s);
    EscapesAsShown(s);
  }

  // ----- values -----

  /** Texts with a comma between two of them. */
  function Commas(texts: seq<bytes>): bytes {
    if texts == [] then [] else if |texts| == 1 then texts[0] else texts[0] + [44] + Commas(texts[1..])
  }

  lemma {:induction false} CommasAreConcat(texts: seq<bytes>)
    ensures Commas(texts) == Concat(texts)
  {
    if |texts| > 1 { CommasAreConcat(texts[1..]); }
  }

  /** Everything but tables. Functions, NaN and infinities are not printed. */
  lemma PrintsScalar(h: Heap, r: Ref, c: Syntax, format: Formatter)
    requires Presents(h, r, c, format) && !r.RTable?
    ensures r.RNil? ==> Write(c) == [110, 117, 108, 108]
    ensures r.RBool? ==> Write(c) == if r.b then [116, 114, 117, 101] else [102, 97, 108, 115, 101]
    ensures r.RNum? ==> Write(c) == NumberText(r.n, format)
    ensures r.RStr? ==> Write(c) == [34] + ShownAll(r.s) + [34]
    ensures !r.ROddNum? && !r.ROther?
  {
    if r.RStr? { QuotesAsShown(r.s); }
  }

  lemma RefusesOthers(h: Heap, r: Ref, path: set<TableId>)
    requires !r.RTable?
    ensures Encodable(h, r, path) <==> !r.ROddNum? && !r.ROther?
  {
  }

  /** A table with a first item, or with no fields at all, is printed as an array
      of the items before the first hole. */
  lemma PrintsArray(h: Heap, id: TableId, c: Syntax, format: Formatter) returns (texts: seq<bytes>)
    requires Presents(h, RTable(id), c, format) && (IntKey(1) in h[id].fields || h[id].fields == map[])
    ensures c.Array? && |texts| == |c.items| && Write(c) == [91] + Commas(texts) + [93]
    ensures IntKey(|texts| + 1) !in h[id].fields
    ensures forall i :: 0 <= i < |texts| ==>
      IntKey(i + 1) in h[id].fields && texts[i] == Write(c.items[i].value)
      && Presents(h, h[id].fields[IntKey(i + 1)], c.items[i].value, format)
  {
    hide Write, Concat, WriteItems;
    var t := h[id];
    texts := seq(|c.items|, i requires 0 <= i < |c.items| => Write(c.items[i].value));
    forall i | 0 <= i < |texts| ensures texts[i] == WriteItem(c.items[i]) && PresentsItem(h, t, i, c.items[i], format) {
      assert PresentsItem(h, t, i, c.items[i], format);
      assert [] + Write(c.items[i].value) + [] == Write(c.items[i].value);
    }
    ConcatItems(texts, c.items);
    CommasAreConcat(texts);
    ArrayText(c);
    Associates([91], Commas(texts), [93]);
  }

  lemma ArrayText(c: Syntax)
    requires c.Array? && !c.trailing && c.inner == []
    ensures Write(c) == [91] + WriteItems(c.items, false, [])
  {
  }

  /** The empty table is `[]`. */
  lemma PrintsEmpty(h: Heap, id: TableId, c: Syntax, format: Formatter)
    requires Presents(h, RTable(id), c, format) && h[id].fields == map[]
    ensures Write(c) == [91, 93]
  {
    var texts := PrintsArray(h, id, c, format);
    assert texts == [] && Commas(texts) == [];
  }

  /** Any other table is printed as an object: every key once, in quotes, with a
      colon and the value behind it. */
  lemma PrintsObject(h: Heap, id: TableId, c: Syntax, format: Formatter) returns (texts: seq<bytes>, keys: seq<bytes>)
    requires Presents(h, RTable(id), c, format) && IntKey(1) !in h[id].fields && h[id].fields != map[]
    ensures c.Object? && |texts| == |keys| == |c.members| == |h[id].fields|
    ensures Write(c) == [123] + Commas(texts) + [125]
    ensures forall i, j :: 0 <= i < j < |keys| ==> keys[i] != keys[j]
    ensures forall i :: 0 <= i < |keys| ==>
      StrKey(keys[i]) in h[id].fields
      && texts[i] == [34] + ShownAll(keys[i]) + [34] + [58] + Write(c.members[i].value)
      && Presents(h, h[id].fields[StrKey(keys[i])], c.members[i].value, format)
  {
    hide Write, Concat, WriteMembers, KeyOf;
    var t, members := h[id], c.members;
    keys := seq(|members|, i requires 0 <= i < |members| => KeyOf(members[i]));
    texts := seq(|members|, i requires 0 <= i < |members| => WriteMember(members[i]));
    forall i | 0 <= i < |keys|
      ensures PresentsMember(h, t, members[i], format)
      ensures texts[i] == [34] + ShownAll(keys[i]) + [34] + [58] + Write(members[i].value)
    {
      assert PresentsMember(h, t, members[i], format);
      QuotesAsShown(keys[i]);
      MemberText(members[i], Quoted(PiecesFor(keys[i])));
    }
    ConcatMembers(texts, members);
    CommasAreConcat(texts);
    ObjectText(c);
    Associates([123], Commas(texts), [125]);
  }

  lemma MemberText(m: Member, key: bytes)
    requires m.before == [] && m.beforeColon == [] && m.afterColon == [] && m.after == [] && Quoted(m.key) == key
    ensures WriteMember(m) == key + [58] + Write(m.value)
  {
    hide Write, Quoted;
  }

  lemma ObjectText(c: Syntax)
    requires c.Object? && !c.trailing && c.inner == []
    ensures Write(c) == [123] + WriteMembers(c.members, false, [])
  {
  }

  /** Which tables are accepted, key by key: an array has keys of number type only,
      as many as its length; an object has string keys only. */
  lemma ShapeIs(t: LuaTable)
    ensures ShapeOk(t) <==>
      if IntKey(1) in t.fields || t.fields == map[] then
        |t.fields| == t.len && forall k :: k in t.fields ==> !k.StrKey? && !k.OtherKey?
      else forall k :: k in t.fields ==> k.StrKey?
  {
  }
}
