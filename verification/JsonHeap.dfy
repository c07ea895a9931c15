/** Decoded values on a heap of Lua tables. */
module JsonHeap {
  import opened JsonSyntax
  import opened JsonEncode
  import opened JsonUnfold
  import opened JsonRoundTrip
  import opened JsonNumber

  /** No table has a nil field. */
  predicate Solid(v: Value)
    decreases v
  {
    v.Table? ==> forall k :: k in v.fields ==> !v.fields[k].Nil? && Solid(v.fields[k])
  }

  /** Every number is an integer below 10^14 in magnitude. */
  predicate ShortNumbers(v: Value)
    decreases v
  {
    match v
    case Number(n) => IsShortInt(n)
    case Table(fields) => forall k :: k in fields ==> ShortNumbers(fields[k])
    case _ => true
  }

  predicate Extends(g: Heap, h: Heap) { forall id :: id in h ==> id in g && g[id] == h[id] }

  predicate IdsUnder(h: Heap, next: nat) { forall id :: id in h ==> id < next }

  /** New tables change no value. */
  lemma {:induction false} StillRepresents(g: Heap, h: Heap, r: Ref, v: Value)
    requires Extends(g, h) && Represents(h, r, v)
    ensures Represents(g, r, v)
    decreases v
  {
    if r.RTable? {
      forall k | k in v.fields ensures Represents(g, g[r.id].fields[k], v.fields[k]) {
        StillRepresents(g, h, h[r.id].fields[k], v.fields[k]);
      }
    }
  }

  /** A table with a border for its length. */
  function WithBorder(fields: map<Key, Ref>): (t: LuaTable)
    ensures t.fields == fields
    ensures (t.len == 0 || IntKey(t.len) in fields) && IntKey(t.len + 1) !in fields
  {
    LuaTable(fields, Prefix(LuaTable(fields, 0)))
  }

  /** The fields built so far, `todo` of them still missing. */
  ghost predicate Placed(g: Heap, refs: map<Key, Ref>, fields: Fields, todo: set<Key>) {
    && refs.Keys == fields.Keys - todo
    && forall k :: k in refs ==> RefOk(g, refs[k]) && !refs[k].RNil? && Represents(g, refs[k], fields[k])
  }

  lemma PlacedOne(g: Heap, h: Heap, refs: map<Key, Ref>, fields: Fields, todo: set<Key>, k: Key, r: Ref)
    requires Placed(h, refs, fields, todo) && k in todo && todo <= fields.Keys && Extends(g, h)
    requires RefOk(g, r) && !r.RNil? && Represents(g, r, fields[k])
    ensures Placed(g, refs[k := r], fields, todo - {k})
  {
    forall q | q in refs ensures Represents(g, refs[q], fields[q]) {
      StillRepresents(g, h, refs[q], fields[q]);
    }
  }

  lemma TablePlaced(g: Heap, next: nat, refs: map<Key, Ref>, fields: Fields)
    requires HeapOk(g) && IdsUnder(g, next) && Placed(g, refs, fields, {})
    ensures var f := g[next := WithBorder(refs)];
      Extends(f, g) && HeapOk(f) && IdsUnder(f, next + 1) && Represents(f, RTable(next), Table(fields))
  {
    hide Prefix;
    var f := g[next := WithBorder(refs)];
    assert Extends(f, g);
    forall k | k in refs ensures Represents(f, refs[k], fields[k]) {
      StillRepresents(f, g, refs[k], fields[k]);
    }
    forall id | id in f ensures TableOk(f, f[id]) {
      if id != next { assert TableOk(g, g[id]); }
    }
  }

  /** Puts a value on the heap, each table under an id of its own. */
  method Place(h: Heap, next: nat, v: Value) returns (g: Heap, after: nat, r: Ref)
    requires HeapOk(h) && IdsUnder(h, next) && Solid(v)
    ensures Extends(g, h) && HeapOk(g) && IdsUnder(g, after) && RefOk(g, r) && Represents(g, r, v)
    ensures NumbersShort(h) && ShortNumbers(v) ==> NumbersShort(g) && NumberShort(r)
    decreases v
  {
    g, after := h, next;
    match v
    case Nil => r := RNil;
    case Boolean(b) => r := RBool(b);
    case Number(n) => r := RNum(n);
    case String(s) => r := RStr(s);
    case Table(fields) =>
      hide Represents, TableOk, HeapOk;
      var refs: map<Key, Ref> := map[];
      var todo := fields.Keys;
      while todo != {}
        invariant todo <= fields.Keys && Placed(g, refs, fields, todo)
        invariant Extends(g, h) && HeapOk(g) && IdsUnder(g, after)
        invariant NumbersShort(h) && ShortNumbers(v) ==>
          NumbersShort(g) && forall k :: k in refs ==> NumberShort(refs[k])
        decreases todo
      {
        var k :| k in todo;
        var f, n, q := Place(g, after, fields[k]);
        NotNil(f, q, fields[k]);
        PlacedOne(f, g, refs, fields, todo, k, q);
        g, after, refs, todo := f, n, refs[k := q], todo - {k};
      }
      TablePlaced(g, after, refs, fields);
      g, after, r := g[after := WithBorder(refs)], after + 1, RTable(after);
  }

  lemma NotNil(h: Heap, r: Ref, v: Value)
    requires Represents(h, r, v) && !v.Nil?
    ensures !r.RNil?
  {
  }
}
