/** When printing a heap of tables succeeds, in the terms of the graph: no
    cycle can be reached and everything that can be reached is printable. */
module JsonGraph {
  import opened JsonEncode

  /** The table `to` is the value of a printed field of the table `from`. */
  predicate Edge(h: Heap, from: TableId, to: TableId) {
    from in h && exists k :: k in Visited(h[from]) && h[from].fields[k] == RTable(to)
  }

  /** A walk along printed fields that starts at table `id`. */
  ghost predicate IsWalk(h: Heap, id: TableId, w: seq<TableId>) {
    && w != [] && w[0] == id
    && forall i :: 0 <= i < |w| - 1 ==> Edge(h, w[i], w[i + 1])
  }

  ghost predicate NoRepeat(w: seq<TableId>) { forall i, j :: 0 <= i < j < |w| ==> w[i] != w[j] }

  /** The table itself prints: its shape is accepted and so are its scalar fields. */
  predicate TablePrints(h: Heap, id: TableId) {
    && id in h && ShapeOk(h[id])
    && forall k :: k in Visited(h[id]) ==> h[id].fields[k].RTable? || ScalarOk(h[id].fields[k])
  }

  /** No walk from `id` meets `path` or itself again, and every table on a walk prints. */
  ghost predicate WalksClear(h: Heap, id: TableId, path: set<TableId>) {
    forall w :: IsWalk(h, id, w) ==>
      NoRepeat(w) && (forall i :: 0 <= i < |w| ==> w[i] !in path && TablePrints(h, w[i]))
  }

  lemma {:induction false} WalkIsClear(h: Heap, id: TableId, path: set<TableId>, w: seq<TableId>)
    requires Encodable(h, RTable(id), path) && IsWalk(h, id, w)
    ensures NoRepeat(w)
    ensures forall i :: 0 <= i < |w| ==> w[i] !in path && TablePrints(h, w[i])
    decreases |w|
  {
    PrintableHere(h, id, path);
    if |w| > 1 {
      var next, rest := w[1], w[1..];
      assert Edge(h, w[0], w[1]);
      forall i | 0 <= i < |rest| - 1 ensures Edge(h, rest[i], rest[i + 1]) {
        assert Edge(h, w[i + 1], w[i + 2]);
      }
      WalkIsClear(h, next, path + {id}, rest);
      assert forall i :: 1 <= i < |w| ==> w[i] == rest[i - 1];
    }
  }

  lemma PrintableHere(h: Heap, id: TableId, path: set<TableId>)
    requires Encodable(h, RTable(id), path)
    ensures id !in path && TablePrints(h, id)
    ensures forall next :: Edge(h, id, next) ==> Encodable(h, RTable(next), path + {id})
  {
    forall k | k in Visited(h[id])
      ensures h[id].fields[k].RTable? || ScalarOk(h[id].fields[k])
    {
      assert Encodable(h, h[id].fields[k], path + {id});
    }
  }

  lemma {:induction false} ClearIsEncodable(h: Heap, id: TableId, path: set<TableId>)
    requires WalksClear(h, id, path)
    ensures Encodable(h, RTable(id), path)
    decreases h.Keys - path
  {
    assert IsWalk(h, id, [id]);
    assert [id][0] !in path && TablePrints(h, [id][0]);
    var t := h[id];
    assert h.Keys - (path + {id}) < h.Keys - path by { assert id in h.Keys - path; }
    forall k | k in Visited(t)
      ensures Encodable(h, t.fields[k], path + {id})
    {
      match t.fields[k]
      case RTable(next) =>
        assert Edge(h, id, next);
        forall w | IsWalk(h, next, w)
          ensures NoRepeat(w)
          ensures forall i :: 0 <= i < |w| ==> w[i] !in path + {id} && TablePrints(h, w[i])
        {
          LongerWalk(h, id, next, w);
          var v := [id] + w;
          assert forall i :: 0 <= i < |w| ==> v[i + 1] == w[i];
        }
        ClearIsEncodable(h, next, path + {id});
      case _ =>
    }
  }

  lemma LongerWalk(h: Heap, id: TableId, next: TableId, w: seq<TableId>)
    requires Edge(h, id, next) && IsWalk(h, next, w)
    ensures IsWalk(h, id, [id] + w)
  {
    var v := [id] + w;
    forall i | 0 <= i < |v| - 1 ensures Edge(h, v[i], v[i + 1]) {
      if i > 0 { assert Edge(h, w[i - 1], w[i]); }
    }
  }

  /** `encode` accepts a table exactly when no walk along printed fields comes
      back to a table it has met, and every table it can reach prints. */
  lemma EncodesExactly(h: Heap, id: TableId)
    ensures Encodable(h, RTable(id), {}) <==>
      forall w :: IsWalk(h, id, w) ==> NoRepeat(w) && TablePrints(h, w[|w| - 1])
  {
    if Encodable(h, RTable(id), {}) {
      forall w | IsWalk(h, id, w)
        ensures NoRepeat(w) && TablePrints(h, w[|w| - 1])
      {
        WalkIsClear(h, id, {}, w);
      }
    }
    if forall w :: IsWalk(h, id, w) ==> NoRepeat(w) && TablePrints(h, w[|w| - 1]) {
      forall w | IsWalk(h, id, w)
        ensures forall i :: 0 <= i < |w| ==> w[i] !in {} && TablePrints(h, w[i])
      {
        forall i | 0 <= i < |w| ensures TablePrints(h, w[i]) {
          assert IsWalk(h, id, w[..i + 1]);
        }
      }
      ClearIsEncodable(h, id, {});
    }
  }
}
