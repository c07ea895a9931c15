/** `emojize`: replaces delimited names in place by the texts of a table. */
module Emoji {
  import opened Bytes
  import opened Wrappers

  type Table = map<bytes, bytes>

  function OrNothing(pending: Option<bytes>): bytes {
    match pending
    case Some(p) => p
    case None => []
  }

  /** The pure scanner: `pending` is the text since the last delimiter that may
      open a name, with that delimiter in front. */
  function Scan(table: Table, delim: byte, pending: Option<bytes>, rest: bytes): bytes
    decreases |rest|
  {
    if rest == [] then OrNothing(pending)
    else
      var c, tail := rest[0], rest[1..];
      match pending
      case None =>
        if c == delim then Scan(table, delim, Some([c]), tail) else [c] + Scan(table, delim, None, tail)
      case Some(p) =>
        if c != delim then Scan(table, delim, Some(p + [c]), tail)
        else if |p| == 1 || p + [c] !in table then p + Scan(table, delim, Some([c]), tail)
        else table[p + [c]] + Scan(table, delim, None, tail)
  }

  function Emojized(table: Table, delim: byte, s: bytes): bytes { Scan(table, delim, None, s) }

  /** What the loop has fixed, `s[..index]` or `s[..i]`, and the rest it will scan. */
  function Outcome(table: Table, delim: byte, s: bytes, index: int, i: nat): bytes
    requires -1 <= index < i <= |s| || (index == -1 && i <= |s|)
  {
    if index == -1 then s[..i] + Scan(table, delim, None, s[i..])
    else s[..index] + Scan(table, delim, Some(s[index..i]), s[i..])
  }

  /** A plain byte is copied or joins the pending text. */
  lemma AtPlain(table: Table, delim: byte, s: bytes, index: int, i: nat)
    requires -1 <= index < i < |s| || (index == -1 && i < |s|)
    requires s[i] != delim
    ensures Outcome(table, delim, s, index, i) == Outcome(table, delim, s, index, i + 1)
  {
    var rest := s[i..];
    assert rest[0] == s[i] && rest[1..] == s[i + 1..];
    if index == -1 {
      assert s[..i + 1] == s[..i] + [s[i]];
      Associates(s[..i], [s[i]], Scan(table, delim, None, s[i + 1..]));
    } else {
      assert s[index..i + 1] == s[index..i] + [s[i]];
    }
  }

  /** A delimiter opens a name: the first one, one right behind another, or one
      behind a name the table does not have. */
  lemma AtOpening(table: Table, delim: byte, s: bytes, index: int, i: nat)
    requires -1 <= index < i < |s| || (index == -1 && i < |s|)
    requires s[i] == delim
    requires index == -1 || i - index == 1 || s[index..i + 1] !in table
    ensures Outcome(table, delim, s, index, i) == Outcome(table, delim, s, i, i + 1)
  {
    var rest := s[i..];
    assert rest[0] == s[i] && rest[1..] == s[i + 1..] && s[i..i + 1] == [s[i]];
    if index != -1 {
      assert s[index..i + 1] == s[index..i] + [s[i]];
      assert s[..i] == s[..index] + s[index..i];
      Associates(s[..index], s[index..i], Scan(table, delim, Some([s[i]]), s[i + 1..]));
    }
  }

  /** A delimiter closes a name of the table: the scan goes on behind the inserted text. */
  lemma AtClosing(table: Table, delim: byte, s: bytes, index: nat, i: nat, t: bytes)
    requires index + 1 < i < |s| && s[i] == delim && s[index..i + 1] in table
    requires t == s[..index] + table[s[index..i + 1]] + s[i + 1..]
    ensures index + |table[s[index..i + 1]]| <= |t|
    ensures Outcome(table, delim, s, index, i)
         == Outcome(table, delim, t, -1, index + |table[s[index..i + 1]]|)
  {
    var emo := table[s[index..i + 1]];
    var rest := s[i..];
    assert rest[0] == s[i] && rest[1..] == s[i + 1..];
    assert s[index..i + 1] == s[index..i] + [s[i]];
    var n := index + |emo|;
    assert t[..n] == s[..index] + emo && t[n..] == s[i + 1..];
    Associates(s[..index], emo, Scan(table, delim, None, s[i + 1..]));
  }

  /** `emojize`: `i` and `sLen` follow the replacements, so inserted text is
      never looked at. */
  method Emojize(table: Table, delim: byte, text: bytes) returns (s: bytes)
    ensures s == Emojized(table, delim, text)
  {
    hide Scan;
    s := text;
    var index := -1;
    var sLen := |s|;
    var i := 0;
    assert s[..0] + Scan(table, delim, None, s[0..]) == Scan(table, delim, None, s) by {
      assert s[0..] == s;
    }
    while i < sLen
      invariant sLen == |s| && 0 <= i <= sLen
      invariant index == -1 || (0 <= index < i && s[index] == delim)
      invariant Outcome(table, delim, s, index, i) == Emojized(table, delim, text)
      decreases sLen - i
    {
      if s[i] == delim {
        if index == -1 {
          AtOpening(table, delim, s, index, i);
          index := i;
        } else if i - index == 1 {
          AtOpening(table, delim, s, index, i);
          index := i;
        } else if s[index..i + 1] !in table {
          AtOpening(table, delim, s, index, i);
          index := i;
        } else {
          var emo := table[s[index..i + 1]];
          ghost var before := s;
          s := s[..index] + emo + s[i + 1..];
          AtClosing(table, delim, before, index, i, s);
          var goBack := i - index + 1 - |emo|;
          sLen := sLen - goBack;
          i := i - goBack;
          index := -1;
        }
      } else {
        AtPlain(table, delim, s, index, i);
      }
      i := i + 1;
    }
    AtEnd(table, delim, s, index);
  }

  lemma AtEnd(table: Table, delim: byte, s: bytes, index: int)
    requires -1 <= index < |s| || index == -1
    ensures Outcome(table, delim, s, index, |s|) == s
  {
    assert s[|s|..] == [];
    if index == -1 {
      assert s[..|s|] + [] == s;
    } else {
      assert s[..index] + s[index..|s|] == s;
    }
  }

  // ----- what is replaced -----

  predicate Plain(delim: byte, s: bytes) { forall i :: 0 <= i < |s| ==> s[i] != delim }

  /** A key that the loop can look up: a non-empty name between two delimiters. */
  predicate IsSlot(delim: byte, k: bytes) {
    |k| >= 3 && k[0] == delim && k[|k| - 1] == delim && Plain(delim, k[1..|k| - 1])
  }

  lemma {:induction false} CopiesPlain(table: Table, delim: byte, plain: bytes, rest: bytes)
    requires Plain(delim, plain)
    ensures Scan(table, delim, None, plain + rest) == plain + Scan(table, delim, None, rest)
  {
    if plain == [] {
      assert plain + rest == rest;
    } else {
      var s := plain + rest;
      assert s[0] == plain[0] && s[1..] == plain[1..] + rest;
      CopiesPlain(table, delim, plain[1..], rest);
      assert plain == [plain[0]] + plain[1..];
      Associates([plain[0]], plain[1..], Scan(table, delim, None, rest));
    }
  }

  lemma {:induction false} GathersPlain(table: Table, delim: byte, p: bytes, plain: bytes, rest: bytes)
    requires Plain(delim, plain)
    ensures Scan(table, delim, Some(p), plain + rest) == Scan(table, delim, Some(p + plain), rest)
    decreases |plain|
  {
    if plain == [] {
      assert plain + rest == rest && p + plain == p;
    } else {
      var s := plain + rest;
      assert s[0] == plain[0] && s[1..] == plain[1..] + rest;
      GathersPlain(table, delim, p + [plain[0]], plain[1..], rest);
      assert (p + [plain[0]]) + plain[1..] == p + plain;
    }
  }

  /** A delimited name of the table behind plain text is replaced, and what
      follows is treated as a text of its own. */
  lemma ReplacesName(table: Table, delim: byte, pre: bytes, k: bytes, post: bytes)
    requires Plain(delim, pre) && IsSlot(delim, k) && k in table
    ensures Emojized(table, delim, pre + k + post) == pre + table[k] + Emojized(table, delim, post)
  {
    var name, last := k[1..|k| - 1], [delim] + post;
    var open := [delim] + (name + last);
    assert k == [delim] + name + [delim];
    assert pre + k + post == pre + open;
    CopiesPlain(table, delim, pre, open);
    assert open[0] == delim && open[1..] == name + last;
    GathersPlain(table, delim, [delim], name, last);
    assert ([delim] + name) + [delim] == k;
    assert last[0] == delim && last[1..] == post;
    assert Scan(table, delim, Some([delim] + name), last) == table[k] + Scan(table, delim, None, post);
    Associates(pre, table[k], Scan(table, delim, None, post));
  }

  /** A delimited name that the table does not have stays, and its closing
      delimiter may open the next name. */
  lemma KeepsUnknownName(table: Table, delim: byte, pre: bytes, name: bytes, post: bytes)
    requires Plain(delim, pre) && Plain(delim, name) && [delim] + name + [delim] !in table
    ensures Emojized(table, delim, pre + ([delim] + name) + ([delim] + post))
         == pre + ([delim] + name) + Emojized(table, delim, [delim] + post)
  {
    var last := [delim] + post;
    var open := [delim] + (name + last);
    assert pre + ([delim] + name) + last == pre + open;
    CopiesPlain(table, delim, pre, open);
    assert open[0] == delim && open[1..] == name + last;
    GathersPlain(table, delim, [delim], name, last);
    assert last[0] == delim && last[1..] == post;
    Associates(pre, [delim] + name, Emojized(table, delim, last));
  }

  /** A name that is not closed stays as it is. */
  lemma KeepsOpenName(table: Table, delim: byte, pre: bytes, name: bytes)
    requires Plain(delim, pre) && Plain(delim, name)
    ensures Emojized(table, delim, pre) == pre
    ensures Emojized(table, delim, pre + [delim] + name) == pre + [delim] + name
  {
    CopiesPlain(table, delim, pre, []);
    assert pre + [] == pre;
    var open := [delim] + name;
    CopiesPlain(table, delim, pre, open);
    assert open[0] == delim && open[1..] == name && name + [] == name;
    GathersPlain(table, delim, [delim], name, []);
    assert pre + [delim] + name == pre + open;
  }

  /** Text pending behind an opening delimiter. */
  predicate PendingOk(delim: byte, pending: Option<bytes>) {
    pending.Some? ==> pending.value != [] && pending.value[0] == delim && Plain(delim, pending.value[1..])
  }

  lemma {:induction false} ScanIsIdentity(table: Table, delim: byte, pending: Option<bytes>, rest: bytes)
    requires PendingOk(delim, pending)
    requires forall k :: k in table && IsSlot(delim, k) ==> table[k] == k
    ensures Scan(table, delim, pending, rest) == OrNothing(pending) + rest
    decreases |rest|
  {
    if rest == [] {
      assert OrNothing(pending) + [] == OrNothing(pending);
    } else {
      var c, tail := rest[0], rest[1..];
      assert rest == [c] + tail;
      match pending
      case None =>
        ScanIsIdentity(table, delim, if c == delim then Some([c]) else None, tail);
        assert [] + rest == rest;
      case Some(p) =>
        Associates(p, [c], tail);
        if c != delim {
          assert (p + [c])[1..] == p[1..] + [c];
          ScanIsIdentity(table, delim, Some(p + [c]), tail);
        } else if |p| == 1 || p + [c] !in table {
          ScanIsIdentity(table, delim, Some([c]), tail);
        } else {
          assert (p + [c])[1..|p|] == p[1..];
          assert IsSlot(delim, p + [c]);
          ScanIsIdentity(table, delim, None, tail);
          assert [] + tail == tail;
        }
    }
  }

  /** `emojize` changes no text at all exactly when no key of the table is a
      name between delimiters, other than one that stands for itself. */
  lemma IdentityIff(table: Table, delim: byte)
    ensures (forall s :: Emojized(table, delim, s) == s)
      <==> (forall k :: k in table && IsSlot(delim, k) ==> table[k] == k)
  {
    if forall k :: k in table && IsSlot(delim, k) ==> table[k] == k {
      forall s ensures Emojized(table, delim, s) == s {
        ScanIsIdentity(table, delim, None, s);
        assert [] + s == s;
      }
    }
    if forall s :: Emojized(table, delim, s) == s {
      forall k | k in table && IsSlot(delim, k) ensures table[k] == k {
        ReplacesName(table, delim, [], k, []);
        assert [] + k + [] == k && [] + table[k] + [] == table[k];
        assert Emojized(table, delim, k) == k;
      }
    }
  }

  /** The shipped keys are bare names. Whatever the delimiter, a table whose
      keys do not contain it never matches. */
  lemma BareNamesNeverMatch(table: Table, delim: byte, s: bytes)
    requires forall k :: k in table ==> Plain(delim, k)
    ensures Emojized(table, delim, s) == s
  {
    ScanIsIdentity(table, delim, None, s);
    assert [] + s == s;
  }
}
