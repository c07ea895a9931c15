/** The text printed for a heap of tables means the tree that the heap unfolds to. */
module JsonUnfold {
  import opened JsonPieces
  import opened JsonNumber
  import opened JsonSyntax
  import opened JsonEncode

  /** The tree that a reference unfolds to along printed fields. A table that
      is shared appears in it once for each way to it. */
  function Unfold(h: Heap, r: Ref, path: set<TableId>): Value
    requires Encodable(h, r, path)
    decreases h.Keys - path
  {
    match r
    case RNil => Nil
    case RBool(b) => Boolean(b)
    case RNum(n) => Number(n)
    case RStr(s) => String(s)
    case RTable(id) => Table(map k | k in Visited(h[id]) :: Unfold(h, h[id].fields[k], path + {id}))
  }

  predicate NumberShort(r: Ref) { r.RNum? ==> IsShortInt(r.n) }

  /** Every number in the heap is an integer below 10^14 in magnitude. */
  predicate NumbersShort(h: Heap) {
    forall id, k :: id in h && k in h[id].fields ==> NumberShort(h[id].fields[k])
  }

  // ----- lists of items and members, element by element -----

  lemma {:induction false} AllItemsOk(items: seq<Item>, read: Reader)
    requires forall i :: 0 <= i < |items| ==> ItemOk(items[i], read)
    ensures ItemsOk(items, read)
  {
    hide ItemOk;
    if items != [] { AllItemsOk(items[1..], read); }
  }

  lemma {:induction false} AllMembersOk(members: seq<Member>, read: Reader)
    requires forall i :: 0 <= i < |members| ==> MemberOk(members[i], read)
    ensures MembersOk(members, read)
  {
    hide MemberOk;
    if members != [] { AllMembersOk(members[1..], read); }
  }

  /** What the value of an item or member means, when that is well formed. */
  function MeaningOf(c: Syntax, read: Reader): Value {
    if SyntaxOk(c, read) then Meaning(c, read) else Nil
  }

  predicate Stored(u: Fields, k: Key, c: Syntax, read: Reader) { k in u && u[k] == MeaningOf(c, read) }

  /** The keys `n` to `n + count - 1`. */
  function Slots(n: int, count: nat): set<Key> { set i | n <= i < n + count :: IntKey(i) }

  /** Items land at `n` and up, and nothing else changes. */
  lemma {:induction false} FilledItems(t: Fields, n: int, items: seq<Item>, read: Reader)
    requires forall i :: 0 <= i < |items| ==> ItemOk(items[i], read) && MeaningOf(items[i].value, read) != Nil
    ensures ItemsOk(items, read)
    ensures var u := FillItems(t, n, items, read);
      && u.Keys == t.Keys + Slots(n, |items|)
      && (forall i :: 0 <= i < |items| ==> Stored(u, IntKey(n + i), items[i].value, read))
      && (forall k :: k in t && k !in Slots(n, |items|) ==> u[k] == t[k])
    decreases |items|
  {
    hide Meaning, SyntaxOk;
    AllItemsOk(items, read);
    if items != [] {
      var rest, k := items[1..], IntKey(n);
      assert ItemOk(items[0], read);
      var t' := t[k := MeaningOf(items[0].value, read)];
      FilledItems(t', n + 1, rest, read);
      var u := FillItems(t', n + 1, rest, read);
      assert u == FillItems(t, n, items, read);
      assert Slots(n, |items|) == {k} + Slots(n + 1, |rest|);
      assert k !in Slots(n + 1, |rest|);
      forall i | 0 <= i < |items|
        ensures Stored(u, IntKey(n + i), items[i].value, read)
      {
        if i > 0 { assert Stored(u, IntKey(n + 1 + (i - 1)), rest[i - 1].value, read); }
      }
    }
  }

  function KeysOf(members: seq<Member>): set<Key> {
    set i | 0 <= i < |members| :: StrKey(KeyOf(members[i]))
  }

  lemma {:induction false} KeysCount(members: seq<Member>)
    requires forall i, j :: 0 <= i < j < |members| ==> KeyOf(members[i]) != KeyOf(members[j])
    ensures |KeysOf(members)| == |members|
  {
    hide KeyOf;
    if members != [] {
      var n := |members| - 1;
      var front, k := members[..n], StrKey(KeyOf(members[n]));
      KeysCount(front);
      assert k !in KeysOf(front);
      assert KeysOf(members) == KeysOf(front) + {k};
    }
  }

  /** Members with distinct keys land under their keys, and nothing else changes. */
  lemma {:induction false} FilledMembers(t: Fields, members: seq<Member>, read: Reader)
    requires forall i :: 0 <= i < |members| ==> MemberOk(members[i], read) && MeaningOf(members[i].value, read) != Nil
    requires forall i, j :: 0 <= i < j < |members| ==> KeyOf(members[i]) != KeyOf(members[j])
    ensures MembersOk(members, read)
    ensures var u := FillMembers(t, members, read);
      && u.Keys == t.Keys + KeysOf(members)
      && (forall i :: 0 <= i < |members| ==> Stored(u, StrKey(KeyOf(members[i])), members[i].value, read))
      && (forall k :: k in t && k !in KeysOf(members) ==> u[k] == t[k])
    decreases |members|
  {
    hide Meaning, SyntaxOk, KeyOf, PiecesOk, PiecesMeaning;
    AllMembersOk(members, read);
    if members != [] {
      var m, rest := members[0], members[1..];
      var k := StrKey(KeyOf(m));
      var t' := t[k := MeaningOf(m.value, read)];
      FilledMembers(t', rest, read);
      OneMore(t, members, read);
      var u := FillMembers(t', rest, read);
      assert KeysOf(members) == {k} + KeysOf(rest) by { FirstKeyOf(members); }
      assert k !in KeysOf(rest);
      forall i | 0 <= i < |members|
        ensures Stored(u, StrKey(KeyOf(members[i])), members[i].value, read)
      {
        if i > 0 { assert Stored(u, StrKey(KeyOf(rest[i - 1])), rest[i - 1].value, read); }
      }
    }
  }

  lemma FirstKeyOf(members: seq<Member>)
    requires members != []
    ensures KeysOf(members) == {StrKey(KeyOf(members[0]))} + KeysOf(members[1..])
  {
    hide KeyOf;
    var rest := members[1..];
    forall k | k in KeysOf(members)
      ensures k == StrKey(KeyOf(members[0])) || k in KeysOf(rest)
    {
      var i :| 0 <= i < |members| && k == StrKey(KeyOf(members[i]));
      if i > 0 { assert members[i] == rest[i - 1]; }
    }
    forall k | k in KeysOf(rest) ensures k in KeysOf(members) {
      var i :| 0 <= i < |rest| && k == StrKey(KeyOf(rest[i]));
      assert rest[i] == members[i + 1];
    }
  }

  lemma OneMore(t: Fields, members: seq<Member>, read: Reader)
    requires MembersOk(members, read) && members != [] && MeaningOf(members[0].value, read) != Nil
    ensures MembersOk(members[1..], read)
    ensures FillMembers(t, members, read)
      == FillMembers(t[StrKey(KeyOf(members[0])) := MeaningOf(members[0].value, read)], members[1..], read)
  {
    assert MemberOk(members[0], read);
  }

  // ----- a printed heap means its unfolding -----

  /** Members with distinct keys of `t`, as many as there are fields, use every key. */
  lemma AllKeysUsed(t: LuaTable, members: seq<Member>)
    requires |members| == |t.fields|
    requires forall i, j :: 0 <= i < j < |members| ==> KeyOf(members[i]) != KeyOf(members[j])
    requires forall i :: 0 <= i < |members| ==> StrKey(KeyOf(members[i])) in t.fields
    ensures KeysOf(members) == t.fields.Keys
  {
    hide KeyOf;
    KeysCount(members);
    SubsetEqual(KeysOf(members), t.fields.Keys);
  }

  lemma SubsetCount<T>(a: set<T>, b: set<T>)
    requires a <= b
    ensures |a| <= |b|
  {
    assert b == a + (b - a);
  }

  lemma SubsetEqual<T>(a: set<T>, b: set<T>)
    requires a <= b && |a| == |b|
    ensures a == b
  {
    assert b == a + (b - a);
  }

  /** What `encode` prints for a reference is a well-formed text that means its unfolding. */
  lemma {:induction false} PresentedMeans(
    h: Heap, r: Ref, path: set<TableId>, c: Syntax, format: Formatter, read: Reader)
    requires HeapOk(h) && NumbersShort(h) && NumberShort(r)
    requires Encodable(h, r, path) && Presents(h, r, c, format)
    ensures SyntaxOk(c, read) && Meaning(c, read) == Unfold(h, r, path)
    decreases c
  {
    match r
    case RNil =>
    case RBool(b) =>
    case RNum(n) => NumberReads(n, format, read);
    case RStr(s) => PiecesForIs(s);
    case RTable(id) =>
      if ArrayShaped(h[id]) {
        PresentedArrayMeans(h, id, path, c, format, read);
      } else {
        PresentedObjectMeans(h, id, path, c, format, read);
      }
  }

  /** `c` reads as field `k` of `t` unfolds. */
  ghost predicate ReadsField(h: Heap, t: LuaTable, k: Key, path: set<TableId>, c: Syntax, read: Reader) {
    && k in t.fields && Encodable(h, t.fields[k], path)
    && MeaningOf(c, read) == Unfold(h, t.fields[k], path) && MeaningOf(c, read) != Nil
  }

  lemma UnfoldIs(h: Heap, id: TableId, path: set<TableId>, u: Fields)
    requires Encodable(h, RTable(id), path) && u.Keys == Visited(h[id])
    requires forall k :: k in u ==>
      Encodable(h, h[id].fields[k], path + {id}) && u[k] == Unfold(h, h[id].fields[k], path + {id})
    ensures Unfold(h, RTable(id), path) == Table(u)
  {
    hide Visited;
  }

  lemma PresentedArrayMeans(
    h: Heap, id: TableId, path: set<TableId>, c: Syntax, format: Formatter, read: Reader)
    requires HeapOk(h) && NumbersShort(h) && Encodable(h, RTable(id), path)
    requires Presents(h, RTable(id), c, format) && ArrayShaped(h[id])
    ensures SyntaxOk(c, read) && Meaning(c, read) == Unfold(h, RTable(id), path)
    decreases c, 0
  {
    hide FillItems, Prefix;
    var t, items := h[id], c.items;
    forall i | 0 <= i < |items|
      ensures ItemOk(items[i], read) && ReadsField(h, t, IntKey(i + 1), path + {id}, items[i].value, read)
    {
      assert PresentsItem(h, t, i, items[i], format);
      var r := t.fields[IntKey(i + 1)];
      assert IntKey(i + 1) in Visited(t);
      assert NumberShort(r);
      PresentedMeans(h, r, path + {id}, items[i].value, format, read);
    }
    FilledItems(map[], 1, items, read);
    ArrayUnfolds(h, id, path, items, read);
  }

  lemma ArrayUnfolds(h: Heap, id: TableId, path: set<TableId>, items: seq<Item>, read: Reader)
    requires id in h && Encodable(h, RTable(id), path) && ArrayShaped(h[id]) && |items| == Prefix(h[id])
    requires forall i :: 0 <= i < |items| ==>
      ItemOk(items[i], read) && ReadsField(h, h[id], IntKey(i + 1), path + {id}, items[i].value, read)
    ensures ItemsOk(items, read) && Table(FillItems(map[], 1, items, read)) == Unfold(h, RTable(id), path)
  {
    hide Meaning, SyntaxOk, FillItems, Prefix, Unfold, Encodable, MeaningOf;
    FilledItems(map[], 1, items, read);
    var t, u := h[id], FillItems(map[], 1, items, read);
    assert u.Keys == Visited(t);
    forall k | k in u
      ensures Encodable(h, t.fields[k], path + {id}) && u[k] == Unfold(h, t.fields[k], path + {id})
    {
      var i := k.i - 1;
      assert ReadsField(h, t, IntKey(i + 1), path + {id}, items[i].value, read);
      assert Stored(u, IntKey(1 + i), items[i].value, read);
    }
    UnfoldIs(h, id, path, u);
  }

  lemma PresentedObjectMeans(
    h: Heap, id: TableId, path: set<TableId>, c: Syntax, format: Formatter, read: Reader)
    requires HeapOk(h) && NumbersShort(h) && Encodable(h, RTable(id), path)
    requires Presents(h, RTable(id), c, format) && !ArrayShaped(h[id])
    ensures SyntaxOk(c, read) && Meaning(c, read) == Unfold(h, RTable(id), path)
    decreases c, 0
  {
    hide FillMembers;
    var t, members := h[id], c.members;
    forall i | 0 <= i < |members|
      ensures MemberOk(members[i], read)
      ensures ReadsField(h, t, StrKey(KeyOf(members[i])), path + {id}, members[i].value, read)
    {
      assert PresentsMember(h, t, members[i], format);
      var k := StrKey(KeyOf(members[i]));
      var r := t.fields[k];
      assert k in Visited(t);
      assert NumberShort(r);
      PiecesForIs(KeyOf(members[i]));
      PresentedMeans(h, r, path + {id}, members[i].value, format, read);
    }
    FilledMembers(map[], members, read);
    ObjectUnfolds(h, id, path, members, read);
  }

  lemma ObjectUnfolds(h: Heap, id: TableId, path: set<TableId>, members: seq<Member>, read: Reader)
    requires id in h && Encodable(h, RTable(id), path) && !ArrayShaped(h[id]) && |members| == |h[id].fields|
    requires forall i, j :: 0 <= i < j < |members| ==> KeyOf(members[i]) != KeyOf(members[j])
    requires forall i :: 0 <= i < |members| ==> MemberOk(members[i], read)
    requires forall i :: 0 <= i < |members| ==>
      ReadsField(h, h[id], StrKey(KeyOf(members[i])), path + {id}, members[i].value, read)
    ensures MembersOk(members, read) && Table(FillMembers(map[], members, read)) == Unfold(h, RTable(id), path)
  {
    hide Meaning, SyntaxOk, FillMembers, KeyOf, Unfold, Encodable, MeaningOf, MembersOk, MemberOk;
    FilledMembers(map[], members, read);
    var t, u := h[id], FillMembers(map[], members, read);
    AllKeysUsed(t, members);
    assert u.Keys == Visited(t);
    forall k | k in u
      ensures Encodable(h, t.fields[k], path + {id}) && u[k] == Unfold(h, t.fields[k], path + {id})
    {
      var i :| 0 <= i < |members| && k == StrKey(KeyOf(members[i]));
      assert ReadsField(h, t, k, path + {id}, members[i].value, read);
      assert Stored(u, k, members[i].value, read);
    }
    UnfoldIs(h, id, path, u);
  }
}
