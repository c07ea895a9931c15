/** When the passes of `ColorFormat` are one pass over the message: for palettes
    of ordinary rules the condition of ColorFormat is exact. */
module ColorLayers {
  import opened Bytes
  import opened Wrappers
  import opened ColorFormat

  /** Rules with different two-byte tokens that cannot overlap, none of which
      disturbs its own token. */
  ghost predicate Ordinary(palette: seq<Rule>) {
    && DistinctTokens(palette)
    && (forall q :: q in palette ==> Separated([q], q))
    && forall q, r :: q in palette && r in palette ==> q.find[1] != r.find[0]
  }

  lemma SelfSeparated(q: Rule)
    requires Separated([q], q)
    ensures |q.find| == 2 && q.replace != [] && TokenFree([q], q.replace)
    ensures q.find[1] != q.replace[0] && q.find[0] != q.replace[|q.replace| - 1]
  {
    assert q in [q];
  }

  /** A text that holds a token is changed by the simultaneous pass. */
  lemma {:induction false} TokenIsReplaced(palette: seq<Rule>, t: bytes, i: nat)
    requires forall q :: q in palette ==> Separated([q], q)
    requires TokenAt(palette, t, i)
    ensures Rewrite(palette, t) != t
    decreases |t|
  {
    if Lookup(palette, t[..2]).Some? {
      var q := LookupIn(palette, t[..2]);
      SelfSeparated(q);
      StartsDifferently(q, t);
    } else {
      assert t[0..2] == t[..2];
      assert t[1..][i - 1..i + 1] == t[i..i + 2];
      TokenIsReplaced(palette, t[1..], i - 1);
      assert t == [t[0]] + t[1..];
    }
  }

  lemma StartsDifferently(q: Rule, t: bytes)
    requires Separated([q], q) && |q.find| == 2 && |t| >= 2 && t[..2] == q.find
    ensures q.replace != []
    ensures q.replace[0] != t[0] || (|q.replace| >= 2 && q.replace[1] != t[1])
  {
    SelfSeparated(q);
    var text := q.replace;
    assert t[..2][0] == t[0] && t[..2][1] == t[1];
    if |text| >= 2 {
      assert !TokenAt([q], text, 0);
      assert text[0..2] == [text[0], text[1]] && t[..2] == [t[0], t[1]];
    }
  }

  predicate Absent(s: bytes, token: bytes) { forall i :: 0 <= i <= |s| ==> !StartsWith(s[i..], token) }

  lemma StartsAt(s: bytes, i: nat, token: bytes)
    requires i <= |s| && |token| == 2
    ensures StartsWith(s[i..], token) <==> i + 2 <= |s| && s[i] == token[0] && s[i + 1] == token[1]
  {
    if i + 2 <= |s| { assert s[i..][0] == s[i] && s[i..][1] == s[i + 1]; }
  }

  /** In a token with a byte before or behind it there is no other token. */
  lemma AbsentAround(token: bytes, other: bytes, x: bytes, y: bytes)
    requires |token| == 2 && |other| == 2 && |x| + |y| <= 1
    requires other != token && other[1] != token[0] && other[0] != token[1]
    ensures Absent(x + token + y, other)
  {
    var s := x + token + y;
    assert other[0] != token[0] || other[1] != token[1];
    forall i | 0 <= i <= |s| ensures !StartsWith(s[i..], other) {
      StartsAt(s, i, other);
    }
  }

  lemma PassLeaves(s: bytes, q: Rule)
    requires |q.find| == 2 && Absent(s, q.find)
    ensures ReplaceAll(s, q.find, q.replace) == s
  {
    NoHit(s, q.find, q.replace, 0);
    assert s[..0] + ReplaceAll(s[0..], q.find, q.replace) == ReplaceAll(s, q.find, q.replace) by {
      assert s[0..] == s;
    }
  }

  lemma {:induction false} PassesLeave(pre: seq<Rule>, rest: seq<Rule>, s: bytes)
    requires PaletteOk(pre + rest) && PaletteOk(rest)
    requires forall q :: q in pre ==> |q.find| == 2 && Absent(s, q.find)
    ensures ApplyRules(pre + rest, s) == ApplyRules(rest, s)
  {
    if pre == [] {
      assert pre + rest == rest;
    } else {
      var q := pre[0];
      assert (pre + rest)[1..] == pre[1..] + rest && (pre + rest)[0] == q && q in pre;
      assert PaletteOk(pre[1..] + rest) by {
        assert forall i :: 0 <= i < |pre[1..] + rest| ==> (pre[1..] + rest)[i] == (pre + rest)[i + 1];
      }
      PassLeaves(s, q);
      PassesLeave(pre[1..], rest, s);
    }
  }

  /** The last rule whose pass disturbs a rule behind it. */
  lemma {:induction false} LastDisturbing(palette: seq<Rule>) returns (i: nat)
    requires !Layered(palette)
    ensures i < |palette| && !Separated(palette[i + 1..], palette[i]) && Layered(palette[i + 1..])
  {
    if Layered(palette[1..]) {
      i := 0;
    } else {
      var j := LastDisturbing(palette[1..]);
      i := j + 1;
      assert palette[1..][j + 1..] == palette[i + 1..];
    }
  }

  lemma DisturbsHow(others: seq<Rule>, r: Rule)
    requires |r.find| == 2 && r.replace != [] && !Separated(others, r)
    requires forall q :: q in others ==> |q.find| == 2 && q.find[1] != r.find[0]
    ensures TokenFree(others, r.replace) ==>
      exists q :: q in others && (q.find[1] == r.replace[0] || q.find[0] == r.replace[|r.replace| - 1])
  {
    hide TokenFree;
  }

  lemma TokenIsAt(others: seq<Rule>, q: Rule, s: bytes, k: nat)
    requires q in others && |q.find| == 2 && k + 2 <= |s| && s[k] == q.find[0] && s[k + 1] == q.find[1]
    ensures TokenAt(others, s, k)
  {
    InLookup(others, q);
    assert s[k..k + 2] == q.find;
  }

  /** A byte that, put before or behind a replacement, completes a token. */
  lemma Disturbs(others: seq<Rule>, r: Rule) returns (x: bytes, y: bytes, k: nat)
    requires |r.find| == 2 && r.replace != [] && !Separated(others, r)
    requires forall q :: q in others ==> |q.find| == 2 && q.find[1] != r.find[0]
    ensures |x| + |y| <= 1 && TokenAt(others, x + r.replace + y, k)
  {
    DisturbsHow(others, r);
    var text := r.replace;
    x, y := [], [];
    if !TokenFree(others, text) {
      k :| TokenAt(others, text, k);
      assert x + text + y == text;
    } else {
      hide TokenFree, TokenAt, Separated;
      var q :| q in others && (q.find[1] == text[0] || q.find[0] == text[|text| - 1]);
      if q.find[1] == text[0] {
        x, k := [q.find[0]], 0;
      } else {
        y, k := [q.find[1]], |text| - 1;
      }
      TokenIsAt(others, q, x + text + y, k);
    }
  }

  /** What the two kinds of passes make of a token with a byte before or behind it. */
  lemma OneToken(palette: seq<Rule>, r: Rule, x: bytes, y: bytes)
    requires Ordinary(palette) && r in palette && |r.find| == 2 && |x| + |y| <= 1
    ensures Rewrite(palette, x + r.find + y) == x + r.replace + y
    ensures ReplaceAll(x + r.find + y, r.find, r.replace) == x + r.replace + y
  {
    LookupDistinct(palette, r);
    hide *;
    Seam(x, r.find, y);
    Seam(x, r.replace, y);
    if x == [] {
      TokenThen(palette, r, y);
    } else {
      ByteThen(palette, r, x[0]);
    }
  }

  lemma Seam(x: bytes, text: bytes, y: bytes)
    requires |x| + |y| <= 1
    ensures x + text + y == if x == [] then text + y else [x[0]] + text
  {
  }

  lemma ByteThen(palette: seq<Rule>, r: Rule, x: byte)
    requires Ordinary(palette) && r in palette && |r.find| == 2 && Lookup(palette, r.find) == Some(r.replace)
    ensures Rewrite(palette, [x] + r.find) == [x] + r.replace
    ensures ReplaceAll([x] + r.find, r.find, r.replace) == [x] + r.replace
  {
    var s := [x] + r.find;
    assert s[..2] == [x, r.find[0]] && s[1..] == r.find && r.find + [] == r.find && r.replace + [] == r.replace;
    TokenThen(palette, r, []);
    forall q | q in palette ensures |q.find| == 2 && q.find[1] != r.find[0] { SelfSeparated(q); }
    NoToken(palette, x, r.find[0]);
    assert s[0] == x;
    PassesMiss(s, r);
  }

  lemma TokenThen(palette: seq<Rule>, r: Rule, y: bytes)
    requires |r.find| == 2 && Lookup(palette, r.find) == Some(r.replace) && |y| <= 1
    ensures Rewrite(palette, r.find + y) == r.replace + y
    ensures ReplaceAll(r.find + y, r.find, r.replace) == r.replace + y
  {
    var s := r.find + y;
    assert s[..2] == r.find && s[2..] == y;
    PassesShort(y, r);
    PassesHit(s, r);
  }

  /** A message on which the passes and one pass differ. */
  lemma Differs(palette: seq<Rule>, i: nat) returns (s: bytes)
    requires Ordinary(palette) && i < |palette|
    requires !Separated(palette[i + 1..], palette[i]) && Layered(palette[i + 1..])
    ensures PaletteOk(palette) && ApplyRules(palette, s) != Rewrite(palette, s)
  {
    var r, pre, others := palette[i], palette[..i], palette[i + 1..];
    SelfSeparated(r);
    forall q | q in palette ensures |q.find| == 2 { SelfSeparated(q); }
    var x, y, k := Disturbs(others, r);
    s := x + r.find + y;
    OneToken(palette, r, x, y);
    assert palette == pre + ([r] + others) && ([r] + others)[1..] == others;
    assert PaletteOk(palette) && PaletteOk([r] + others);
    forall q | q in pre ensures |q.find| == 2 && Absent(s, q.find) {
      var j :| 0 <= j < i && pre[j] == q;
      assert palette[j].find != palette[i].find && q in palette && r in palette;
      AbsentAround(r.find, q.find, x, y);
    }
    PassesLeave(pre, [r] + others, s);
    PassesAreSimultaneous(others, x + r.replace + y);
    TokenIsReplaced(others, x + r.replace + y, k);
  }

  /** For ordinary rules the passes are one pass on every message if and only
      if no pass disturbs a rule behind it. */
  lemma SimultaneousIff(palette: seq<Rule>)
    requires Ordinary(palette)
    ensures PaletteOk(palette)
    ensures (forall s :: ApplyRules(palette, s) == Rewrite(palette, s)) <==> Layered(palette)
  {
    forall q | q in palette ensures |q.find| == 2 { SelfSeparated(q); }
    if Layered(palette) {
      forall s ensures ApplyRules(palette, s) == Rewrite(palette, s) {
        PassesAreSimultaneous(palette, s);
      }
    } else {
      var i := LastDisturbing(palette);
      var s := Differs(palette, i);
    }
  }
}
