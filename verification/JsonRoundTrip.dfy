/** Printing a heap of tables and parsing the text: what comes back, and when it
    is the value that was printed. */
module JsonRoundTrip {
  import opened Wrappers
  import opened JsonText
  import opened JsonNumber
  import opened JsonSyntax
  import opened JsonDecode
  import opened JsonAccepts
  import opened JsonEncode
  import opened JsonGraph
  import opened JsonUnfold

  // ----- being the value of a reference -----

  /** `v` is the value that `r` refers to, with all fields of every table. */
  ghost predicate Represents(h: Heap, r: Ref, v: Value)
    decreases v
  {
    match r
    case RNil => v == Nil
    case RBool(b) => v == Boolean(b)
    case RNum(n) => v == Number(n)
    case RStr(s) => v == String(s)
    case RTable(id) =>
      id in h && v.Table? && v.fields.Keys == h[id].fields.Keys &&
      forall k :: k in v.fields ==> Represents(h, h[id].fields[k], v.fields[k])
    case _ => false
  }

  /** A reference has at most one value. */
  lemma {:induction false} OneValue(h: Heap, r: Ref, v: Value, v': Value)
    requires Represents(h, r, v) && Represents(h, r, v')
    ensures v == v'
    decreases v
  {
    if r.RTable? {
      forall k | k in v.fields ensures v.fields[k] == v'.fields[k] {
        OneValue(h, h[r.id].fields[k], v.fields[k], v'.fields[k]);
      }
      assert v.fields == v'.fields;
    }
  }

  // ----- walks along all fields, printed or not -----

  predicate Link(h: Heap, from: TableId, to: TableId) {
    from in h && exists k :: k in h[from].fields && h[from].fields[k] == RTable(to)
  }

  ghost predicate IsTrail(h: Heap, id: TableId, w: seq<TableId>) {
    && w != [] && w[0] == id
    && forall i :: 0 <= i < |w| - 1 ==> Link(h, w[i], w[i + 1])
  }

  /** No hole below the length of an array. */
  predicate HoleFree(t: LuaTable) { ArrayShaped(t) ==> HasFirst(t, t.len) }

  /** No table that can be reached from `r` has a hole. */
  ghost predicate NoHoles(h: Heap, r: Ref) {
    r.RTable? ==> forall w :: IsTrail(h, r.id, w) ==> w[|w| - 1] in h && HoleFree(h[w[|w| - 1]])
  }

  lemma LongerTrail(h: Heap, id: TableId, next: TableId, w: seq<TableId>)
    requires Link(h, id, next) && IsTrail(h, next, w)
    ensures IsTrail(h, id, [id] + w) && ([id] + w)[|w|] == w[|w| - 1]
  {
    var v := [id] + w;
    forall i | 0 <= i < |v| - 1 ensures Link(h, v[i], v[i + 1]) {
      if i > 0 { assert Link(h, w[i - 1], w[i]); }
    }
  }

  lemma ShorterTrail(h: Heap, id: TableId, w: seq<TableId>)
    requires IsTrail(h, id, w) && |w| > 1
    ensures Link(h, id, w[1]) && IsTrail(h, w[1], w[1..])
  {
    assert Link(h, w[0], w[1]);
    var rest := w[1..];
    forall i | 0 <= i < |rest| - 1 ensures Link(h, rest[i], rest[i + 1]) {
      assert Link(h, w[i + 1], w[i + 2]);
    }
  }

  lemma NoHolesBelow(h: Heap, id: TableId, k: Key)
    requires NoHoles(h, RTable(id))
    ensures id in h && HoleFree(h[id])
    ensures k in h[id].fields ==> NoHoles(h, h[id].fields[k])
  {
    assert IsTrail(h, id, [id]) && [id][0] == id;
    if k in h[id].fields && h[id].fields[k].RTable? {
      var next := h[id].fields[k].id;
      assert Link(h, id, next);
      forall w | IsTrail(h, next, w) ensures w[|w| - 1] in h && HoleFree(h[w[|w| - 1]]) {
        LongerTrail(h, id, next, w);
      }
    }
  }

  lemma NoHolesHere(h: Heap, id: TableId)
    requires id in h && HoleFree(h[id])
    requires forall k :: k in h[id].fields ==> NoHoles(h, h[id].fields[k])
    ensures NoHoles(h, RTable(id))
  {
    forall w | IsTrail(h, id, w) ensures w[|w| - 1] in h && HoleFree(h[w[|w| - 1]]) {
      if |w| > 1 {
        ShorterTrail(h, id, w);
        var k :| k in h[id].fields && h[id].fields[k] == RTable(w[1]);
        assert NoHoles(h, h[id].fields[k]);
        assert w[1..][|w[1..]| - 1] == w[|w| - 1];
      }
    }
  }

  // ----- when nothing is dropped -----

  /** Every field of a table that passes the checks is printed, except in one
      case: an array with a hole whose length happens to equal its number of
      fields. There the items behind the hole are dropped silently. */
  lemma PrintsEveryField(t: LuaTable)
    requires ShapeOk(t)
    ensures Visited(t) == t.fields.Keys <==> HoleFree(t)
  {
    if ArrayShaped(t) {
      var p := Prefix(t);
      FirstKeysCount(p);
      FirstKeysCount(t.len);
      SubsetCount(FirstKeys(p), t.fields.Keys);
      if HasFirst(t, t.len) {
        assert FirstKeys(t.len) <= t.fields.Keys;
        SubsetEqual(FirstKeys(t.len), t.fields.Keys);
      }
    }
  }

  /** The unfolding along printed fields is the value that was meant exactly
      when no table that can be reached has a hole. */
  lemma {:induction false} UnfoldsWholeIff(h: Heap, r: Ref, path: set<TableId>)
    requires HeapOk(h) && Encodable(h, r, path)
    ensures Represents(h, r, Unfold(h, r, path)) <==> NoHoles(h, r)
    decreases h.Keys - path
  {
    if r.RTable? {
      var id, t, v := r.id, h[r.id], Unfold(h, r, path);
      assert h.Keys - (path + {id}) < h.Keys - path by { assert id in h.Keys - path; }
      PrintsEveryField(t);
      forall k | k in Visited(t)
        ensures v.fields[k] == Unfold(h, t.fields[k], path + {id})
        ensures Represents(h, t.fields[k], v.fields[k]) <==> NoHoles(h, t.fields[k])
      {
        UnfoldsWholeIff(h, t.fields[k], path + {id});
      }
      if Represents(h, r, v) { NoHolesHere(h, id); }
      if NoHoles(h, r) {
        forall k: Key ensures HoleFree(t) && (k in t.fields ==> NoHoles(h, t.fields[k])) {
          NoHolesBelow(h, id, k);
        }
      }
    }
  }

  // ----- main results -----

  /** Decoding what `encode` printed gives back a tree, for every order in which
      `pairs` lists the fields. That tree is the value that was printed exactly
      when no table has a hole. */
  lemma DecodeUndoesEncode(h: Heap, r: Ref, c: Syntax, format: Formatter, read: Reader)
    requires HeapOk(h) && RefOk(h, r) && NumbersShort(h) && NumberShort(r)
    requires Encodable(h, r, {}) && Presents(h, r, c, format)
    ensures Decode(Write(c), read) == Success(Unfold(h, r, {}))
    ensures Represents(h, r, Decode(Write(c), read).value) <==> NoHoles(h, r)
  {
    PresentedMeans(h, r, {}, c, format, read);
    DecodesText([], c, [], read);
    assert [] + Write(c) + [] == Write(c);
    UnfoldsWholeIff(h, r, {});
  }

  /** A JSON array or object: the items 1 to `#t` and nothing else, or only
      string keys. What its fields hold is a table or prints. */
  predicate IsJsonTable(t: LuaTable) {
    && (if ArrayShaped(t) then t.fields.Keys == FirstKeys(t.len) else forall k :: k in t.fields ==> k.StrKey?)
    && forall k :: k in t.fields ==> t.fields[k].RTable? || ScalarOk(t.fields[k])
  }

  /** A JSON value: no walk along fields meets a table twice, and every table it
      meets is a JSON array or object. Tables may be shared. */
  ghost predicate IsJson(h: Heap, r: Ref) {
    if r.RTable? then
      forall w :: IsTrail(h, r.id, w) ==> NoRepeat(w) && w[|w| - 1] in h && IsJsonTable(h[w[|w| - 1]])
    else ScalarOk(r)
  }

  lemma IsJsonTableIff(h: Heap, id: TableId)
    requires id in h
    ensures IsJsonTable(h[id]) <==> TablePrints(h, id) && HoleFree(h[id])
  {
    var t := h[id];
    FirstKeysCount(t.len);
    if ShapeOk(t) { PrintsEveryField(t); }
    if ArrayShaped(t) && HasFirst(t, t.len) && |t.fields| == t.len {
      assert FirstKeys(t.len) <= t.fields.Keys;
      SubsetEqual(FirstKeys(t.len), t.fields.Keys);
    }
  }

  /** Without holes all walks run along printed fields. */
  lemma {:induction false} TrailIsWalk(h: Heap, id: TableId, path: set<TableId>, w: seq<TableId>)
    requires Encodable(h, RTable(id), path) && NoHoles(h, RTable(id)) && IsTrail(h, id, w)
    ensures IsWalk(h, id, w)
    decreases |w|
  {
    if |w| > 1 {
      var next, rest := w[1], w[1..];
      ShorterTrail(h, id, w);
      var k :| k in h[id].fields && h[id].fields[k] == RTable(next);
      NoHolesBelow(h, id, k);
      PrintsEveryField(h[id]);
      assert Edge(h, id, next);
      PrintableHere(h, id, path);
      TrailIsWalk(h, next, path + {id}, rest);
      forall i | 0 <= i < |w| - 1 ensures Edge(h, w[i], w[i + 1]) {
        if i > 0 { assert Edge(h, rest[i - 1], rest[i]); }
      }
    }
  }

  /** What `encode` accepts and prints whole is exactly the JSON values. */
  lemma PrintsWholeIff(h: Heap, r: Ref)
    ensures Encodable(h, r, {}) && NoHoles(h, r) <==> IsJson(h, r)
  {
    if r.RTable? {
      var id := r.id;
      EncodesExactly(h, id);
      if Encodable(h, r, {}) && NoHoles(h, r) {
        forall w | IsTrail(h, id, w)
          ensures NoRepeat(w) && w[|w| - 1] in h && IsJsonTable(h[w[|w| - 1]])
        {
          TrailIsWalk(h, id, {}, w);
          IsJsonTableIff(h, w[|w| - 1]);
        }
      }
      if IsJson(h, r) {
        forall w | IsWalk(h, id, w) ensures NoRepeat(w) && TablePrints(h, w[|w| - 1]) {
          assert forall i :: 0 <= i < |w| - 1 ==> Edge(h, w[i], w[i + 1]) ==> Link(h, w[i], w[i + 1]);
          assert IsTrail(h, id, w);
          IsJsonTableIff(h, w[|w| - 1]);
        }
        forall w | IsTrail(h, id, w) ensures w[|w| - 1] in h && HoleFree(h[w[|w| - 1]]) {
          IsJsonTableIff(h, w[|w| - 1]);
        }
      }
    }
  }

  /** The two calls in a row fail exactly when the value is not encodable, and
      give back the value exactly when it is a JSON value. */
  method EncodeThenDecode(h: Heap, r: Ref, format: Formatter, read: Reader) returns (v: Result<Value>)
    requires HeapOk(h) && RefOk(h, r) && NumbersShort(h) && NumberShort(r)
    ensures v.Success? <==> Encodable(h, r, {})
    ensures v.Success? ==> v.value == Unfold(h, r, {})
    ensures v.Success? && Represents(h, r, v.value) <==> IsJson(h, r)
  {
    PrintsWholeIff(h, r);
    var text, c := EncodeJson(h, r, format);
    if text.Failure? {
      return Failure;
    }
    DecodeUndoesEncode(h, r, c, format, read);
    v := DecodeJson(text.value, read);
  }

  /** `t[1]`, `t[3]` and `t[10]` with a length of 3. */
  const HOLED: LuaTable :=
    LuaTable(map[IntKey(1) := RBool(true), IntKey(3) := RBool(true), IntKey(10) := RBool(true)], 3)

  lemma HoledIs()
    ensures HOLED.fields.Keys == {IntKey(1), IntKey(3), IntKey(10)}
    ensures ArrayShaped(HOLED) && ShapeOk(HOLED) && !HoleFree(HOLED)
    ensures Prefix(HOLED) == 1 && Visited(HOLED) == {IntKey(1)}
  {
    assert HOLED.fields.Keys == {IntKey(1), IntKey(3), IntKey(10)};
    assert IntKey(2) !in HOLED.fields;
  }

  lemma HoledHeapIs(h: Heap)
    requires h == map[0 := HOLED]
    ensures HeapOk(h) && NumbersShort(h) && Encodable(h, RTable(0), {}) && !NoHoles(h, RTable(0))
  {
    HoledIs();
    hide Prefix, Visited, HasFirst, ShapeOk, ArrayShaped;
    assert forall k :: k in HOLED.fields ==> HOLED.fields[k] == RBool(true);
    if NoHoles(h, RTable(0)) { NoHolesBelow(h, 0, IntKey(1)); }
  }

  /** `[true]` */
  const FIRST_ITEM: Syntax := Array([Item([], Word(TRUE), [])], false, [])

  lemma HoledIsPrinted(h: Heap, c: Syntax, format: Formatter)
    requires h == map[0 := HOLED]
    ensures Presents(h, RTable(0), c, format) <==> c == FIRST_ITEM
  {
    HoledIs();
    hide Prefix, Visited, HasFirst, ShapeOk, ArrayShaped;
    if Presents(h, RTable(0), c, format) {
      assert PresentsItem(h, HOLED, 0, c.items[0], format);
      assert c.items == FIRST_ITEM.items;
    }
    if c == FIRST_ITEM {
      assert PresentsItem(h, HOLED, 0, c.items[0], format);
    }
  }

  /** Such a table passes the checks, is printed as its first item alone, and
      decoding that gives another value. */
  lemma DropsBehindHole(format: Formatter, read: Reader)
    ensures var h := map[0 := HOLED];
      && HeapOk(h) && NumbersShort(h) && Encodable(h, RTable(0), {})
      && (forall c :: Presents(h, RTable(0), c, format) <==> c == FIRST_ITEM)
      && Decode(Write(FIRST_ITEM), read).Success?
      && !Represents(h, RTable(0), Decode(Write(FIRST_ITEM), read).value)
  {
    hide *;
    var h: Heap := map[0 := HOLED];
    HoledHeapIs(h);
    forall c ensures Presents(h, RTable(0), c, format) <==> c == FIRST_ITEM {
      HoledIsPrinted(h, c, format);
    }
    RefIsOk(h);
    DecodeUndoesEncode(h, RTable(0), FIRST_ITEM, format, read);
  }

  lemma RefIsOk(h: Heap)
    requires 0 in h
    ensures RefOk(h, RTable(0)) && NumberShort(RTable(0))
  {
  }
}
