/** Parsing a text and printing the value again: for which texts the same value
    comes back. */
module JsonReprint {
  import opened Bytes
  import opened Wrappers
  import opened JsonText
  import opened JsonPieces
  import opened JsonNumber
  import opened JsonSyntax
  import opened JsonDecode
  import opened JsonAccepts
  import opened JsonEncode
  import opened JsonGraph
  import opened JsonUnfold
  import opened JsonRoundTrip
  import opened JsonHeap

  // ----- values that can be printed whole -----

  /** String keys only, or the keys 1 to some number. */
  predicate ProperKeys(keys: set<Key>) { (forall k :: k in keys ==> k.StrKey?) || keys == FirstKeys(|keys|) }

  /** Every table in `v` has such keys. */
  predicate Proper(v: Value)
    decreases v
  {
    v.Table? ==> ProperKeys(v.fields.Keys) && forall k :: k in v.fields ==> Proper(v.fields[k])
  }

  /** On the heap, with the border that the length operator must return, these are the JSON tables. */
  lemma ProperTableIff(h: Heap, id: TableId, v: Value)
    requires HeapOk(h) && Represents(h, RTable(id), v)
    ensures IsJsonTable(h[id]) <==> ProperKeys(v.fields.Keys)
  {
    var t, keys := h[id], v.fields.Keys;
    FirstKeysCount(t.len);
    assert TableOk(h, t);
    forall k | k in t.fields ensures t.fields[k].RTable? || ScalarOk(t.fields[k]) {
      assert Represents(h, t.fields[k], v.fields[k]);
    }
    if ArrayShaped(t) && ProperKeys(keys) { BorderIs(h, t); }
  }

  lemma BorderIs(h: Heap, t: LuaTable)
    requires TableOk(h, t) && ArrayShaped(t) && ProperKeys(t.fields.Keys)
    ensures t.fields.Keys == FirstKeys(t.len)
  {
    var keys := t.fields.Keys;
    if forall k :: k in keys ==> k.StrKey? {
      assert IntKey(1) !in keys;
      assert t.len == 0 && keys == {};
    } else {
      var n := |keys|;
      assert forall i :: IntKey(i) in keys <==> 1 <= i <= n;
    }
  }

  /** A table that has a value is not inside itself. */
  lemma {:induction false} NoCycle(h: Heap, id: TableId, v: Value, w: seq<TableId>)
    requires Represents(h, RTable(id), v) && IsTrail(h, id, w) && |w| > 1
    ensures w[|w| - 1] != id
    decreases v
  {
    if w[|w| - 1] == id {
      ShorterTrail(h, id, w);
      var next := w[1];
      var k :| k in h[id].fields && h[id].fields[k] == RTable(next);
      var loop := w[1..] + [next];
      TrailExtends(h, next, w[1..], next);
      NoCycle(h, next, v.fields[k], loop);
      assert false;
    }
  }

  lemma TrailExtends(h: Heap, id: TableId, w: seq<TableId>, next: TableId)
    requires IsTrail(h, id, w) && Link(h, w[|w| - 1], next)
    ensures IsTrail(h, id, w + [next])
  {
    var v := w + [next];
    forall i | 0 <= i < |v| - 1 ensures Link(h, v[i], v[i + 1]) {
      if i < |w| - 1 { assert Link(h, w[i], w[i + 1]); }
    }
  }

  lemma TrailPrefix(h: Heap, id: TableId, w: seq<TableId>, n: nat)
    requires IsTrail(h, id, w) && 0 < n <= |w|
    ensures IsTrail(h, id, w[..n])
  {
    forall i | 0 <= i < n - 1 ensures Link(h, w[..n][i], w[..n][i + 1]) {
      assert Link(h, w[i], w[i + 1]);
    }
  }

  lemma HeadIsFresh(h: Heap, id: TableId, v: Value, w: seq<TableId>)
    requires Represents(h, RTable(id), v) && IsTrail(h, id, w)
    ensures forall j :: 0 < j < |w| ==> w[j] != id
  {
    hide Represents, IsTrail;
    forall j | 0 < j < |w| ensures w[j] != id {
      TrailPrefix(h, id, w, j + 1);
      NoCycle(h, id, v, w[..j + 1]);
    }
  }

  lemma NoRepeatFrom(w: seq<TableId>)
    requires w != [] && NoRepeat(w[1..]) && forall j :: 0 < j < |w| ==> w[j] != w[0]
    ensures NoRepeat(w)
  {
    forall i, j | 0 <= i < j < |w| ensures w[i] != w[j] {
      if i > 0 { assert w[1..][i - 1] == w[i] && w[1..][j - 1] == w[j]; }
    }
  }

  /** A walk through the heap is a walk through the value. */
  lemma {:induction false} TrailIsClear(h: Heap, id: TableId, v: Value, w: seq<TableId>)
    requires HeapOk(h) && Represents(h, RTable(id), v) && Proper(v) && IsTrail(h, id, w)
    ensures NoRepeat(w) && w[|w| - 1] in h && IsJsonTable(h[w[|w| - 1]])
    decreases |w|
  {
    hide HeapOk, IsJsonTable, ProperKeys;
    if |w| == 1 {
      ProperTableIff(h, id, v);
    } else {
      ShorterTrail(h, id, w);
      var k :| k in h[id].fields && h[id].fields[k] == RTable(w[1]);
      assert Proper(v.fields[k]);
      TrailIsClear(h, w[1], v.fields[k], w[1..]);
      HeadIsFresh(h, id, v, w);
      hide NoRepeat;
      NoRepeatFrom(w);
    }
  }

  lemma IsJsonBelow(h: Heap, id: TableId, k: Key)
    requires IsJson(h, RTable(id))
    ensures id in h && IsJsonTable(h[id])
    ensures k in h[id].fields ==> IsJson(h, h[id].fields[k])
  {
    assert IsTrail(h, id, [id]) && [id][0] == id;
    if k in h[id].fields && h[id].fields[k].RTable? {
      var next := h[id].fields[k].id;
      assert Link(h, id, next);
      forall w | IsTrail(h, next, w)
        ensures NoRepeat(w) && w[|w| - 1] in h && IsJsonTable(h[w[|w| - 1]])
      {
        LongerTrail(h, id, next, w);
        var v := [id] + w;
        assert NoRepeat(v);
        forall i, j | 0 <= i < j < |w| ensures w[i] != w[j] {
          assert v[i + 1] == w[i] && v[j + 1] == w[j];
        }
      }
    }
  }

  lemma {:induction false} JsonIsProper(h: Heap, r: Ref, v: Value)
    requires HeapOk(h) && Represents(h, r, v) && IsJson(h, r)
    ensures Proper(v)
    decreases v
  {
    if r.RTable? {
      IsJsonBelow(h, r.id, IntKey(1));
      ProperTableIff(h, r.id, v);
      forall k | k in v.fields ensures Proper(v.fields[k]) {
        IsJsonBelow(h, r.id, k);
        JsonIsProper(h, h[r.id].fields[k], v.fields[k]);
      }
    }
  }

  /** A reference is a JSON value exactly when the value it stands for is proper. */
  lemma IsJsonIff(h: Heap, r: Ref, v: Value)
    requires HeapOk(h) && Represents(h, r, v)
    ensures IsJson(h, r) <==> Proper(v)
  {
    if IsJson(h, r) { JsonIsProper(h, r, v); }
    if r.RTable? && Proper(v) {
      forall w | IsTrail(h, r.id, w)
        ensures NoRepeat(w) && w[|w| - 1] in h && IsJsonTable(h[w[|w| - 1]])
      {
        TrailIsClear(h, r.id, v, w);
      }
    }
  }

  // ----- texts whose value can be printed whole -----

  predicate IsNull(c: Syntax) { c == Word(NULL) }

  /** No `null` stands before another item. */
  predicate NullsLast(items: seq<Item>) {
    forall i, j :: 0 <= i < j < |items| && IsNull(items[i].value) ==> IsNull(items[j].value)
  }

  /** The last member with its key. */
  predicate IsLast(members: seq<Member>, i: nat)
    requires i < |members|
  {
    forall j :: i < j < |members| ==> KeyOf(members[j]) != KeyOf(members[i])
  }

  /** In every array of the text that is not overwritten, nulls come last. */
  predicate NoGaps(c: Syntax)
    decreases c
  {
    match c
    case Word(_) => true
    case Text(_) => true
    case Array(items, _, _) => NullsLast(items) && forall i :: 0 <= i < |items| ==> NoGaps(items[i].value)
    case Object(members, _, _) =>
      forall i :: 0 <= i < |members| && IsLast(members, i) ==> NoGaps(members[i].value)
  }

  lemma MeansNilIff(c: Syntax, read: Reader)
    requires SyntaxOk(c, read)
    ensures Meaning(c, read) == Nil <==> IsNull(c)
  {
    hide FillItems, FillMembers;
  }

  /** `u[k]` is what `c` means, and is missing if that is nil. */
  predicate Lands(u: Fields, k: Key, c: Syntax, read: Reader) {
    (k in u <==> !IsNull(c)) && (k in u ==> u[k] == MeaningOf(c, read))
  }

  /** The fields other than `keys` are those of `t`. */
  ghost predicate SameBut(u: Fields, t: Fields, keys: set<Key>) {
    forall k :: k !in keys ==> (k in u <==> k in t) && (k in u ==> u[k] == t[k])
  }

  lemma {:induction false} ItemsLand(t: Fields, n: int, items: seq<Item>, read: Reader)
    requires ItemsOk(items, read)
    ensures forall i :: 0 <= i < |items| ==> SyntaxOk(items[i].value, read)
    ensures var u := FillItems(t, n, items, read);
      && SameBut(u, t, Slots(n, |items|))
      && forall i :: 0 <= i < |items| ==> Lands(u, IntKey(n + i), items[i].value, read)
    decreases |items|
  {
    hide Meaning, SyntaxOk, IsNull;
    if items != [] {
      var rest, k, c := items[1..], IntKey(n), items[0].value;
      assert ItemOk(items[0], read);
      MeansNilIff(c, read);
      var t' := SetField(t, k, Meaning(c, read));
      ItemsLand(t', n + 1, rest, read);
      var u := FillItems(t', n + 1, rest, read);
      assert u == FillItems(t, n, items, read);
      assert Slots(n, |items|) == {k} + Slots(n + 1, |rest|);
      assert k !in Slots(n + 1, |rest|);
      forall i | 0 <= i < |items|
        ensures SyntaxOk(items[i].value, read) && Lands(u, IntKey(n + i), items[i].value, read)
      {
        if i > 0 { assert items[i] == rest[i - 1] && Lands(u, IntKey(n + 1 + (i - 1)), rest[i - 1].value, read); }
      }
    }
  }

  lemma {:induction false} MembersLand(t: Fields, members: seq<Member>, read: Reader)
    requires MembersOk(members, read)
    ensures forall i :: 0 <= i < |members| ==> SyntaxOk(members[i].value, read)
    ensures var u := FillMembers(t, members, read);
      && SameBut(u, t, KeysOf(members))
      && forall i :: 0 <= i < |members| && IsLast(members, i) ==>
           Lands(u, StrKey(KeyOf(members[i])), members[i].value, read)
    decreases |members|
  {
    hide Meaning, SyntaxOk, IsNull, PiecesOk, PiecesMeaning;
    if members != [] {
      var m, rest := members[0], members[1..];
      var k, c := StrKey(KeyOf(m)), m.value;
      assert MemberOk(m, read);
      MeansNilIff(c, read);
      var t' := SetField(t, k, Meaning(c, read));
      MembersLand(t', rest, read);
      var u := FillMembers(t', rest, read);
      assert u == FillMembers(t, members, read);
      FirstKeyOf(members);
      hide KeyOf;
      forall i | 0 <= i < |members|
        ensures SyntaxOk(members[i].value, read)
        ensures IsLast(members, i) ==> Lands(u, StrKey(KeyOf(members[i])), members[i].value, read)
      {
        if i > 0 {
          assert members[i] == rest[i - 1];
          if IsLast(members, i) { LastInRest(members, i); }
        } else if IsLast(members, 0) {
          assert k !in KeysOf(rest);
        }
      }
    }
  }

  lemma LastInRest(members: seq<Member>, i: nat)
    requires 0 < i < |members| && IsLast(members, i)
    ensures IsLast(members[1..], i - 1)
  {
    hide KeyOf;
    var rest := members[1..];
    forall j | i - 1 < j < |rest| ensures KeyOf(rest[j]) != KeyOf(rest[i - 1]) {
      assert rest[j] == members[j + 1] && rest[i - 1] == members[i];
    }
  }

  lemma {:induction false} LastWith(members: seq<Member>, k: Key) returns (i: nat)
    requires k in KeysOf(members)
    ensures i < |members| && k == StrKey(KeyOf(members[i])) && IsLast(members, i)
    decreases |members|
  {
    hide KeyOf;
    var n := |members| - 1;
    var front := members[..n];
    if k == StrKey(KeyOf(members[n])) {
      i := n;
    } else {
      var j :| 0 <= j < |members| && k == StrKey(KeyOf(members[j]));
      assert front[j] == members[j] && k in KeysOf(front);
      i := LastWith(front, k);
      forall j | i < j < |members| ensures KeyOf(members[j]) != KeyOf(members[i]) {
        if j < n { assert front[j] == members[j]; }
      }
    }
  }

  /** Items land on the keys 1 to some number exactly when nulls come last. */
  lemma ItemKeysIff(items: seq<Item>, u: Fields, read: Reader)
    requires SameBut(u, map[], Slots(1, |items|))
    requires forall i :: 0 <= i < |items| ==> Lands(u, IntKey(1 + i), items[i].value, read)
    ensures ProperKeys(u.Keys) <==> NullsLast(items)
  {
    hide IsNull;
    if ProperKeys(u.Keys) {
      forall i, j | 0 <= i < j < |items| && IsNull(items[i].value) ensures IsNull(items[j].value) {
        assert IntKey(1 + i) !in u;
        assert IntKey(1 + j) !in u;
      }
    }
    if NullsLast(items) {
      var p := LeadingItems(items);
      assert u.Keys == FirstKeys(p) by {
        forall k ensures k in u <==> k in FirstKeys(p) {
          if k in Slots(1, |items|) { assert Lands(u, IntKey(1 + (k.i - 1)), items[k.i - 1].value, read); }
        }
      }
      FirstKeysCount(p);
    }
  }

  lemma {:induction false} LeadingItems(items: seq<Item>) returns (p: nat)
    requires NullsLast(items)
    ensures p <= |items| && forall i :: 0 <= i < |items| ==> (IsNull(items[i].value) <==> i >= p)
  {
    hide IsNull;
    if items == [] || IsNull(items[0].value) {
      p := 0;
    } else {
      var q := LeadingItems(items[1..]);
      p := q + 1;
      assert forall i :: 1 <= i < |items| ==> items[i] == items[1..][i - 1];
    }
  }

  /** The value of a text is proper exactly when the text has no gap. */
  lemma {:induction false} ProperTextIff(c: Syntax, read: Reader)
    requires SyntaxOk(c, read)
    ensures Proper(Meaning(c, read)) <==> NoGaps(c)
    decreases c
  {
    match c
    case Word(_) =>
    case Text(_) =>
    case Array(items, _, _) =>
      ItemsLand(map[], 1, items, read);
      forall i | 0 <= i < |items| ensures Proper(MeaningOf(items[i].value, read)) <==> NoGaps(items[i].value) {
        ProperTextIff(items[i].value, read);
      }
      ArrayProperIff(items, Meaning(c, read).fields, read);
    case Object(members, _, _) =>
      MembersLand(map[], members, read);
      forall i | 0 <= i < |members| ensures Proper(MeaningOf(members[i].value, read)) <==> NoGaps(members[i].value) {
        ProperTextIff(members[i].value, read);
      }
      ObjectProperIff(members, Meaning(c, read).fields, read);
  }

  lemma ArrayProperIff(items: seq<Item>, u: Fields, read: Reader)
    requires SameBut(u, map[], Slots(1, |items|))
    requires forall i :: 0 <= i < |items| ==> Lands(u, IntKey(1 + i), items[i].value, read)
    requires forall i :: 0 <= i < |items| ==> (Proper(MeaningOf(items[i].value, read)) <==> NoGaps(items[i].value))
    ensures Proper(Table(u)) <==> NullsLast(items) && forall i :: 0 <= i < |items| ==> NoGaps(items[i].value)
  {
    hide MeaningOf, ProperKeys, NullsLast;
    ItemKeysIff(items, u, read);
    if forall k :: k in u ==> Proper(u[k]) {
      forall i | 0 <= i < |items| ensures NoGaps(items[i].value) {
        assert Lands(u, IntKey(1 + i), items[i].value, read);
      }
    }
    if forall i :: 0 <= i < |items| ==> NoGaps(items[i].value) {
      forall k | k in u ensures Proper(u[k]) {
        assert k in Slots(1, |items|);
        assert Lands(u, IntKey(1 + (k.i - 1)), items[k.i - 1].value, read);
      }
    }
  }

  lemma ObjectProperIff(members: seq<Member>, u: Fields, read: Reader)
    requires SameBut(u, map[], KeysOf(members))
    requires forall i :: 0 <= i < |members| && IsLast(members, i) ==>
      Lands(u, StrKey(KeyOf(members[i])), members[i].value, read)
    requires forall i :: 0 <= i < |members| ==>
      (Proper(MeaningOf(members[i].value, read)) <==> NoGaps(members[i].value))
    ensures Proper(Table(u)) <==>
      forall i :: 0 <= i < |members| && IsLast(members, i) ==> NoGaps(members[i].value)
  {
    hide MeaningOf, KeyOf;
    assert ProperKeys(u.Keys) by {
      forall k | k in u ensures k.StrKey? { assert k in KeysOf(members); }
    }
    if forall k :: k in u ==> Proper(u[k]) {
      forall i | 0 <= i < |members| && IsLast(members, i) ensures NoGaps(members[i].value) {
        assert Lands(u, StrKey(KeyOf(members[i])), members[i].value, read);
      }
    }
    if forall i :: 0 <= i < |members| && IsLast(members, i) ==> NoGaps(members[i].value) {
      forall k | k in u ensures Proper(u[k]) {
        assert k in KeysOf(members);
        var i := LastWith(members, k);
        assert Lands(u, StrKey(KeyOf(members[i])), members[i].value, read);
      }
    }
  }

  // ----- parsing and printing again -----

  /** What `decode` builds has no nil fields. */
  lemma {:induction false} MeaningIsSolid(c: Syntax, read: Reader)
    requires SyntaxOk(c, read)
    ensures Solid(Meaning(c, read))
    decreases c
  {
    match c
    case Word(_) =>
    case Text(_) =>
    case Array(items, _, _) =>
      var u := Meaning(c, read).fields;
      ItemsLand(map[], 1, items, read);
      forall k | k in u ensures !u[k].Nil? && Solid(u[k]) {
        assert k in Slots(1, |items|);
        var i := k.i - 1;
        assert Lands(u, IntKey(1 + i), items[i].value, read);
        MeansNilIff(items[i].value, read);
        MeaningIsSolid(items[i].value, read);
      }
    case Object(members, _, _) =>
      var u := Meaning(c, read).fields;
      MembersLand(map[], members, read);
      forall k | k in u ensures !u[k].Nil? && Solid(u[k]) {
        assert k in KeysOf(members);
        var i := LastWith(members, k);
        assert Lands(u, StrKey(KeyOf(members[i])), members[i].value, read);
        MeansNilIff(members[i].value, read);
        MeaningIsSolid(members[i].value, read);
      }
  }

  /** Wherever the value of a text lies on the heap, `encode` accepts it and
      drops nothing exactly when the text has no gap. */
  lemma PrintsDecodedIff(c: Syntax, read: Reader, h: Heap, r: Ref)
    requires SyntaxOk(c, read) && HeapOk(h) && Represents(h, r, Meaning(c, read))
    ensures Encodable(h, r, {}) && NoHoles(h, r) <==> NoGaps(c)
  {
    PrintsWholeIff(h, r);
    IsJsonIff(h, r, Meaning(c, read));
    ProperTextIff(c, read);
  }

  /** `json.encode(json.decode(s))`. Decoding the new text gives the same value
      if and only if the old one has no `null` before another item in an array
      that is not overwritten. */
  method DecodeThenEncode(s: bytes, format: Formatter, read: Reader) returns (again: Result<bytes>)
    ensures Decode(s, read).Failure? ==> again.Failure?
    ensures forall pre, c, post, v :: IsTextOf(s, pre, c, post, v, read) && ShortNumbers(v) ==>
      (again.Success? && Decode(again.value, read) == Success(v) <==> NoGaps(c))
  {
    hide *;
    var decoded := DecodeJson(s, read);
    if decoded.Failure? {
      forall pre, c, post, v ensures !IsTextOf(s, pre, c, post, v, read) {
        DecodeAccepts(s, v, read);
      }
      return Failure;
    }
    var v := decoded.value;
    SolidResult(s, v, read);
    EmptyHeap();
    var h, _, r := Place(map[], 0, v);
    ghost var d;
    again, d := EncodeJson(h, r, format);
    forall pre, c, post, v' | IsTextOf(s, pre, c, post, v', read) && ShortNumbers(v')
      ensures again.Success? && Decode(again.value, read) == Success(v') <==> NoGaps(c)
    {
      DecodeAccepts(s, v', read);
      Again(s, pre, c, post, v, h, r, again, d, format, read);
    }
  }

  lemma EmptyHeap()
    ensures HeapOk(map[]) && IdsUnder(map[], 0) && NumbersShort(map[])
  {
  }

  lemma SolidResult(s: bytes, v: Value, read: Reader)
    requires Decode(s, read) == Success(v)
    ensures Solid(v)
  {
    hide Decode, Solid, Meaning, SyntaxOk, Write;
    var pre, c, post := DecodesOnlyText(s, read);
    MeaningIsSolid(c, read);
  }

  lemma Again(s: bytes, pre: bytes, c: Syntax, post: bytes, v: Value, h: Heap, r: Ref,
              again: Result<bytes>, d: Syntax, format: Formatter, read: Reader)
    requires IsTextOf(s, pre, c, post, v, read)
    requires HeapOk(h) && RefOk(h, r) && Represents(h, r, v) && NumbersShort(h) && NumberShort(r)
    requires again.Success? <==> Encodable(h, r, {})
    requires again.Success? ==> again.value == Write(d) && Presents(h, r, d, format)
    ensures again.Success? && Decode(again.value, read) == Success(v) <==> NoGaps(c)
  {
    hide Decode, Represents, Encodable, Presents, Write, Meaning, SyntaxOk, NoGaps, NoHoles;
    PrintsDecodedIff(c, read, h, r);
    if again.Success? {
      DecodeUndoesEncode(h, r, d, format, read);
      var w := Decode(Write(d), read).value;
      if Represents(h, r, w) { OneValue(h, r, v, w); }
    }
  }
}
