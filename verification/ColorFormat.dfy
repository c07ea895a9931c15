/** `Server::ColorFormat`: one find-and-replace pass over the message for each
    rule of the palette, against one pass that applies all rules at once. */
module ColorFormat {
  import opened Bytes
  import opened Wrappers

  /** One entry of `colors` in the configuration. */
  datatype Rule = Rule(find: bytes, replace: bytes)

  // ----- std::string::find -----

  predicate StartsWith(s: bytes, pat: bytes) { pat <= s }

  /** The first position from `pos` on where `pat` occurs, as `find` returns it. */
  function Find(s: bytes, pat: bytes, pos: nat): (r: Option<nat>)
    requires pos <= |s|
    ensures r.Some? ==> pos <= r.value <= |s| && StartsWith(s[r.value..], pat)
    ensures r.Some? ==> forall i :: pos <= i < r.value ==> !StartsWith(s[i..], pat)
    ensures r.None? ==> forall i :: pos <= i <= |s| ==> !StartsWith(s[i..], pat)
    decreases |s| - pos
  {
    if StartsWith(s[pos..], pat) then Some(pos)
    else if pos == |s| then None
    else Find(s, pat, pos + 1)
  }

  // ----- one rule -----

  function Min(a: nat, b: nat): nat { if a < b then a else b }

  /** The pure form of one pass: left to right, never looking at inserted text.
      Two bytes are replaced at each hit, whatever the length of the token. */
  function ReplaceAll(s: bytes, find: bytes, replace: bytes): bytes
    requires find != []
    decreases |s|
  {
    if s == [] then []
    else if StartsWith(s, find) then replace + ReplaceAll(s[Min(2, |s|)..], find, replace)
    else [s[0]] + ReplaceAll(s[1..], find, replace)
  }

  lemma {:induction false} SkipsToHit(s: bytes, find: bytes, replace: bytes, n: nat)
    requires find != [] && n <= |s| && forall i :: 0 <= i < n ==> !StartsWith(s[i..], find)
    ensures ReplaceAll(s, find, replace) == s[..n] + ReplaceAll(s[n..], find, replace)
  {
    if n > 0 {
      assert s[0..] == s;
      forall i | 0 <= i < n - 1 ensures !StartsWith(s[1..][i..], find) {
        assert s[1..][i..] == s[i + 1..];
      }
      SkipsToHit(s[1..], find, replace, n - 1);
      assert s[1..][n - 1..] == s[n..];
      assert s[..n] == [s[0]] + s[1..][..n - 1];
    } else {
      assert s[0..] == s;
    }
  }

  /** The inner loop: `result` is edited in place and `start_pos` moves past
      each inserted text. */
  method ReplaceInPlace(message: bytes, find: bytes, replace: bytes) returns (result: bytes)
    requires find != []
    ensures result == ReplaceAll(message, find, replace)
  {
    result := message;
    var startPos := 0;
    assert message[..0] + ReplaceAll(message[0..], find, replace) == ReplaceAll(message, find, replace) by {
      assert message[0..] == message;
    }
    while true
      invariant startPos <= |result|
      invariant result[..startPos] + ReplaceAll(result[startPos..], find, replace) == ReplaceAll(message, find, replace)
      decreases |result| - startPos
    {
      var hit := Find(result, find, startPos);
      if hit.None? {
        NoHit(result, find, replace, startPos);
        return;
      }
      var pos := hit.value;
      HitAt(result, find, replace, startPos, pos);
      var end := Min(pos + 2, |result|);
      ghost var before := result;
      result := result[..pos] + replace + result[end..];
      startPos := pos + |replace|;
      assert result[..startPos] == before[..pos] + replace;
      assert result[startPos..] == before[end..];
    }
  }

  /** Moving on to a position with no hit before it. */
  lemma SkipsFrom(s: bytes, find: bytes, replace: bytes, from: nat, pos: nat)
    requires find != [] && from <= pos <= |s| && forall i :: from <= i < pos ==> !StartsWith(s[i..], find)
    ensures s[..from] + ReplaceAll(s[from..], find, replace) == s[..pos] + ReplaceAll(s[pos..], find, replace)
  {
    hide ReplaceAll;
    var t := s[from..];
    forall i | 0 <= i < pos - from ensures !StartsWith(t[i..], find) {
      assert t[i..] == s[from + i..];
    }
    hide StartsWith;
    SkipsToHit(t, find, replace, pos - from);
    assert t[pos - from..] == s[pos..];
    TakeMore(s, from, pos - from);
    Associates(s[..from], t[..pos - from], ReplaceAll(s[pos..], find, replace));
  }

  lemma NoHit(s: bytes, find: bytes, replace: bytes, from: nat)
    requires find != [] && from <= |s| && forall i :: from <= i <= |s| ==> !StartsWith(s[i..], find)
    ensures s[..from] + ReplaceAll(s[from..], find, replace) == s
  {
    SkipsFrom(s, find, replace, from, |s|);
    assert s[|s|..] == [] && s[..|s|] + [] == s;
  }

  lemma HitAt(s: bytes, find: bytes, replace: bytes, from: nat, pos: nat)
    requires find != [] && from <= pos <= |s| && StartsWith(s[pos..], find)
    requires forall i :: from <= i < pos ==> !StartsWith(s[i..], find)
    ensures pos < |s|
    ensures s[..from] + ReplaceAll(s[from..], find, replace)
         == s[..pos] + replace + ReplaceAll(s[Min(pos + 2, |s|)..], find, replace)
  {
    SkipsFrom(s, find, replace, from, pos);
    HitHere(s[pos..], find, replace);
    hide StartsWith, ReplaceAll;
    DropTwo(s, pos);
    Associates(s[..pos], replace, ReplaceAll(s[Min(pos + 2, |s|)..], find, replace));
  }

  lemma HitHere(u: bytes, find: bytes, replace: bytes)
    requires find != [] && StartsWith(u, find)
    ensures u != [] && ReplaceAll(u, find, replace) == replace + ReplaceAll(u[Min(2, |u|)..], find, replace)
  {
  }

  lemma DropTwo(s: bytes, pos: nat)
    requires pos <= |s|
    ensures var u := s[pos..]; u[Min(2, |u|)..] == s[Min(pos + 2, |s|)..]
  {
  }

  /** A hit takes two bytes away, however long the token is. */
  lemma TakesTwoBytes(find: bytes, rest: bytes, replace: bytes)
    requires find != []
    ensures var s := find + rest;
      ReplaceAll(s, find, replace) == replace + (if |s| >= 2 then ReplaceAll(s[2..], find, replace) else [])
  {
    HitHere(find + rest, find, replace);
  }

  // ----- all rules, one after another -----

  predicate PaletteOk(palette: seq<Rule>) { forall i :: 0 <= i < |palette| ==> palette[i].find != [] }

  function ApplyRules(palette: seq<Rule>, s: bytes): bytes
    requires PaletteOk(palette)
  {
    if palette == [] then s
    else ApplyRules(palette[1..], ReplaceAll(s, palette[0].find, palette[0].replace))
  }

  /** `ColorFormat` with the rules of the configuration. */
  method Format(palette: seq<Rule>, message: bytes) returns (result: bytes)
    requires PaletteOk(palette)
    ensures result == ApplyRules(palette, message)
  {
    result := message;
    var i := 0;
    assert palette[0..] == palette;
    while i < |palette|
      invariant i <= |palette|
      invariant ApplyRules(palette[i..], result) == ApplyRules(palette, message)
    {
      result := ReplaceInPlace(result, palette[i].find, palette[i].replace);
      assert palette[i..][1..] == palette[i + 1..];
      i := i + 1;
    }
  }

  // ----- all rules at once -----

  /** The first rule for a two-byte token. */
  function Lookup(palette: seq<Rule>, token: bytes): Option<bytes> {
    if palette == [] then None
    else if palette[0].find == token then Some(palette[0].replace)
    else Lookup(palette[1..], token)
  }

  /** One pass over the message that replaces every token by its first rule. */
  function Rewrite(palette: seq<Rule>, s: bytes): bytes
    decreases |s|
  {
    if |s| < 2 then s
    else
      match Lookup(palette, s[..2])
      case Some(text) => text + Rewrite(palette, s[2..])
      case None => [s[0]] + Rewrite(palette, s[1..])
  }

  predicate TokenAt(palette: seq<Rule>, s: bytes, i: int) {
    0 <= i && i + 2 <= |s| && Lookup(palette, s[i..i + 2]).Some?
  }

  /** No token starts anywhere in `s`. */
  ghost predicate TokenFree(palette: seq<Rule>, s: bytes) { forall i :: !TokenAt(palette, s, i) }

  /** A pass for `r` does not disturb the rules of `others`: its token does not
      overlap theirs, and its replacement holds no token of theirs and cannot
      complete one with what stands before or behind it. */
  ghost predicate Separated(others: seq<Rule>, r: Rule) {
    && |r.find| == 2 && TokenFree(others, r.replace)
    && (forall q :: q in others ==>
         |q.find| == 2 && q.find[1] != r.find[0] && r.replace != []
         && q.find[1] != r.replace[0] && q.find[0] != r.replace[|r.replace| - 1])
  }

  /** No pass disturbs the rules behind it. */
  ghost predicate Layered(palette: seq<Rule>) {
    palette != [] ==> Separated(palette[1..], palette[0]) && Layered(palette[1..])
  }

  /** No pass disturbs any rule. */
  ghost predicate Clean(palette: seq<Rule>) {
    forall r :: r in palette ==> Separated(palette, r)
  }

  lemma {:induction false} LookupIn(palette: seq<Rule>, token: bytes) returns (r: Rule)
    requires Lookup(palette, token).Some?
    ensures r in palette && r.find == token && Lookup(palette, token) == Some(r.replace)
  {
    if palette[0].find == token {
      r := palette[0];
    } else {
      r := LookupIn(palette[1..], token);
    }
  }

  lemma {:induction false} InLookup(palette: seq<Rule>, r: Rule)
    requires r in palette
    ensures Lookup(palette, r.find).Some?
  {
    if palette[0].find != r.find { InLookup(palette[1..], r); }
  }

  /** Two bytes of which one never stands there in a token are no token. */
  lemma NoToken(palette: seq<Rule>, x: byte, y: byte)
    requires (forall q :: q in palette ==> |q.find| == 2 && q.find[0] != x)
          || (forall q :: q in palette ==> |q.find| == 2 && q.find[1] != y)
    ensures Lookup(palette, [x, y]).None?
  {
    if Lookup(palette, [x, y]).Some? {
      var q := LookupIn(palette, [x, y]);
    }
  }

  /** A pass leaves text alone that holds no token and cannot start one at its end. */
  lemma {:induction false} RewriteSkips(palette: seq<Rule>, text: bytes, rest: bytes)
    requires text != [] && TokenFree(palette, text)
    requires forall q :: q in palette ==> |q.find| == 2 && q.find[0] != text[|text| - 1]
    ensures Rewrite(palette, text + rest) == text + Rewrite(palette, rest)
  {
    hide TokenFree;
    var head, tail, s := [text[0]], text[1..], text + rest;
    assert text == head + tail;
    Associates(head, tail, rest);
    TailIsFree(palette, text);
    SkipsOne(palette, text, rest);
    if tail == [] {
      assert tail + rest == rest;
    } else {
      RewriteSkips(palette, tail, rest);
      Associates(head, tail, Rewrite(palette, rest));
    }
  }

  lemma SkipsOne(palette: seq<Rule>, text: bytes, rest: bytes)
    requires text != [] && TokenFree(palette, text)
    requires forall q :: q in palette ==> |q.find| == 2 && q.find[0] != text[|text| - 1]
    ensures Rewrite(palette, text + rest) == [text[0]] + Rewrite(palette, text[1..] + rest)
  {
    var s := text + rest;
    assert s[1..] == text[1..] + rest;
    if |s| >= 2 {
      if |text| == 1 {
        NoToken(palette, text[0], rest[0]);
        assert s[..2] == [text[0], rest[0]];
      } else {
        assert !TokenAt(palette, text, 0);
        assert s[..2] == text[0..2];
      }
    }
  }

  lemma TailIsFree(palette: seq<Rule>, text: bytes)
    requires text != [] && TokenFree(palette, text)
    ensures TokenFree(palette, text[1..])
  {
    forall i ensures !TokenAt(palette, text[1..], i) {
      if 0 <= i && i + 2 <= |text| - 1 {
        assert text[1..][i..i + 2] == text[i + 1..i + 3];
        assert !TokenAt(palette, text, i + 1);
      }
    }
  }

  // ----- one pass of one rule, then all the others at once -----

  lemma {:induction false} CleanIsLayered(palette: seq<Rule>)
    requires Clean(palette)
    ensures Layered(palette)
  {
    if palette != [] {
      forall r | r in palette ensures Separated(palette[1..], r) {
        assert Separated(palette, r);
        FewerTokens(palette, r.replace);
      }
      CleanIsLayered(palette[1..]);
    }
  }

  lemma FewerTokens(palette: seq<Rule>, s: bytes)
    requires palette != [] && TokenFree(palette, s)
    ensures TokenFree(palette[1..], s)
  {
    forall i ensures !TokenAt(palette[1..], s, i) {
      assert !TokenAt(palette, s, i);
    }
  }

  /** The first byte after a pass: what stood there, or the start of the replacement. */
  lemma FirstAfterPass(s: bytes, r: Rule)
    requires s != [] && r.find != [] && r.replace != []
    ensures var t := ReplaceAll(s, r.find, r.replace);
      t != [] && t[0] == if StartsWith(s, r.find) then r.replace[0] else s[0]
  {
  }

  lemma PassesMiss(s: bytes, r: Rule)
    requires s != [] && |r.find| == 2
    requires s[0] != r.find[0] || (|s| >= 2 && s[..2] != r.find)
    ensures ReplaceAll(s, r.find, r.replace) == [s[0]] + ReplaceAll(s[1..], r.find, r.replace)
  {
    assert |s| >= 2 ==> (StartsWith(s, r.find) <==> s[..2] == r.find);
  }

  lemma PassesHit(s: bytes, r: Rule)
    requires |s| >= 2 && s[..2] == r.find
    ensures ReplaceAll(s, r.find, r.replace) == r.replace + ReplaceAll(s[2..], r.find, r.replace)
  {
  }

  lemma PassesShort(s: bytes, r: Rule)
    requires |s| < 2 && |r.find| == 2
    ensures ReplaceAll(s, r.find, r.replace) == s
  {
    if |s| == 1 { assert ReplaceAll(s[1..], r.find, r.replace) == []; }
  }

  /** A pass moves past a token of another rule unchanged ... */
  lemma PassesToken(r: Rule, others: seq<Rule>, s: bytes)
    requires Separated(others, r) && |s| >= 2 && s[..2] != r.find && Lookup(others, s[..2]).Some?
    ensures ReplaceAll(s, r.find, r.replace) == s[..2] + ReplaceAll(s[2..], r.find, r.replace)
  {
    hide TokenFree;
    var y := s[1..];
    var q := LookupIn(others, s[..2]);
    assert s[1] == q.find[1] != r.find[0];
    assert y[1..] == s[2..] && s[..2] == [s[0]] + [s[1]];
    PassesMiss(y, r);
    PassesMiss(s, r);
    Associates([s[0]], [s[1]], ReplaceAll(s[2..], r.find, r.replace));
  }

  /** ... and past a byte that starts no token, without making it start one. */
  lemma PassesByte(r: Rule, others: seq<Rule>, s: bytes)
    requires Separated(others, r) && others != [] && |s| >= 2 && s[..2] != r.find && Lookup(others, s[..2]).None?
    ensures var t := ReplaceAll(s, r.find, r.replace);
      |t| >= 2 && t == [s[0]] + ReplaceAll(s[1..], r.find, r.replace) && Lookup(others, t[..2]).None?
  {
    var y, t := ReplaceAll(s[1..], r.find, r.replace), ReplaceAll(s, r.find, r.replace);
    assert others[0] in others;
    assert t == [s[0]] + y;
    FirstAfterPass(s[1..], r);
    assert t[..2] == [s[0], y[0]];
    if StartsWith(s[1..], r.find) {
      NoToken(others, s[0], y[0]);
    } else {
      assert s[..2] == [s[0], s[1]];
    }
  }

  /** Replacing one rule's token and then applying the others at once is
      applying all of them at once. */
  lemma {:induction false} PassThenRewrite(r: Rule, others: seq<Rule>, s: bytes)
    requires Separated(others, r) && others != []
    ensures Rewrite(others, ReplaceAll(s, r.find, r.replace)) == Rewrite([r] + others, s)
    decreases |s|
  {
    hide ReplaceAll, TokenFree;
    assert ([r] + others)[1..] == others && others[0] in others;
    if |s| < 2 {
      PassesShort(s, r);
    } else if s[..2] == r.find {
      PassesHit(s, r);
      PassThenRewrite(r, others, s[2..]);
      RewriteSkips(others, r.replace, ReplaceAll(s[2..], r.find, r.replace));
    } else if Lookup(others, s[..2]).Some? {
      var y, t := ReplaceAll(s[2..], r.find, r.replace), ReplaceAll(s, r.find, r.replace);
      PassesToken(r, others, s);
      assert t[..2] == s[..2] && t[2..] == y;
      PassThenRewrite(r, others, s[2..]);
    } else {
      var y, t := ReplaceAll(s[1..], r.find, r.replace), ReplaceAll(s, r.find, r.replace);
      PassesByte(r, others, s);
      assert t[1..] == y;
      PassThenRewrite(r, others, s[1..]);
    }
  }

  /** A palette of one rule is its pass, whatever the replacement is. */
  lemma {:induction false} LoneRule(r: Rule, s: bytes)
    requires |r.find| == 2
    ensures ReplaceAll(s, r.find, r.replace) == Rewrite([r], s)
    decreases |s|
  {
    hide ReplaceAll;
    assert [r][1..] == [];
    if |s| < 2 {
      PassesShort(s, r);
    } else if s[..2] == r.find {
      PassesHit(s, r);
      LoneRule(r, s[2..]);
    } else {
      assert Lookup([r], s[..2]).None?;
      PassesMiss(s, r);
      LoneRule(r, s[1..]);
    }
  }

  lemma {:induction false} LayeredIsOk(palette: seq<Rule>)
    requires Layered(palette)
    ensures PaletteOk(palette)
  {
    if palette != [] {
      LayeredIsOk(palette[1..]);
      assert forall i :: 1 <= i < |palette| ==> palette[i] == palette[1..][i - 1];
    }
  }

  lemma {:induction false} NoRules(s: bytes)
    ensures Rewrite([], s) == s
    decreases |s|
  {
    if |s| >= 2 { NoRules(s[1..]); }
  }

  /** The passes of all rules, one after another, are one simultaneous pass.
      The last rule, or a lone one, may have any replacement. */
  lemma {:induction false} PassesAreSimultaneous(palette: seq<Rule>, s: bytes)
    requires Layered(palette)
    ensures PaletteOk(palette) && ApplyRules(palette, s) == Rewrite(palette, s)
    decreases |palette|
  {
    LayeredIsOk(palette);
    if palette == [] {
      NoRules(s);
    } else {
      var r, others := palette[0], palette[1..];
      assert palette == [r] + others;
      var t := ReplaceAll(s, r.find, r.replace);
      PassesAreSimultaneous(others, t);
      if others == [] {
        assert palette == [r];
        LoneRule(r, s);
      } else {
        PassThenRewrite(r, others, s);
      }
    }
  }

  // ----- the result -----

  /** Joining two token-free texts where no token can form at the seam. */
  lemma JoinIsFree(palette: seq<Rule>, a: bytes, b: bytes)
    requires a != [] && TokenFree(palette, a) && TokenFree(palette, b)
    requires b != [] ==> Lookup(palette, [a[|a| - 1], b[0]]).None?
    ensures TokenFree(palette, a + b)
  {
    forall i ensures !TokenAt(palette, a + b, i) {
      var n := |a|;
      if 0 <= i && i + 2 <= n + |b| {
        var two := (a + b)[i..i + 2];
        if i + 2 <= n {
          assert two == a[i..i + 2] && !TokenAt(palette, a, i);
        } else if i >= n {
          assert two == b[i - n..i - n + 2] && !TokenAt(palette, b, i - n);
        } else {
          assert two == [a[n - 1], b[0]];
        }
      }
    }
  }

  lemma {:induction false} ResultIsFree(palette: seq<Rule>, s: bytes)
    requires Clean(palette)
    ensures TokenFree(palette, Rewrite(palette, s))
    ensures s != [] ==> Rewrite(palette, s) != []
    ensures s != [] ==>
      Rewrite(palette, s)[0] == s[0] || forall x :: Lookup(palette, [x, Rewrite(palette, s)[0]]).None?
    decreases |s|
  {
    if |s| >= 2 {
      match Lookup(palette, s[..2])
      case Some(text) =>
        var r := LookupIn(palette, s[..2]);
        assert Separated(palette, r);
        var rest := Rewrite(palette, s[2..]);
        ResultIsFree(palette, s[2..]);
        if rest != [] { NoToken(palette, text[|text| - 1], rest[0]); }
        JoinIsFree(palette, text, rest);
        forall x: byte ensures Lookup(palette, [x, text[0]]).None? { NoToken(palette, x, text[0]); }
      case None =>
        var rest := Rewrite(palette, s[1..]);
        ResultIsFree(palette, s[1..]);
        assert s[..2] == [s[0], s[1]];
        assert Lookup(palette, [s[0], rest[0]]).None?;
        JoinIsFree(palette, [s[0]], rest);
    }
  }

  lemma {:induction false} FreeIsUnchanged(palette: seq<Rule>, s: bytes)
    requires TokenFree(palette, s)
    ensures Rewrite(palette, s) == s
    decreases |s|
  {
    if |s| >= 2 {
      assert !TokenAt(palette, s, 0) && s[0..2] == s[..2];
      TailIsFree(palette, s);
      FreeIsUnchanged(palette, s[1..]);
    }
  }

  /** The formatted message holds no token of the palette, so formatting it again changes nothing. */
  lemma FormatIsFinal(palette: seq<Rule>, s: bytes)
    requires Clean(palette)
    ensures PaletteOk(palette) && TokenFree(palette, ApplyRules(palette, s))
    ensures ApplyRules(palette, ApplyRules(palette, s)) == ApplyRules(palette, s)
  {
    CleanIsLayered(palette);
    LayeredIsOk(palette);
    var t := ApplyRules(palette, s);
    PassesAreSimultaneous(palette, s);
    PassesAreSimultaneous(palette, t);
    ResultIsFree(palette, s);
    FreeIsUnchanged(palette, t);
  }

  // ----- the order of the rules -----

  ghost predicate SameLookup(p: seq<Rule>, q: seq<Rule>) { forall token :: Lookup(p, token) == Lookup(q, token) }

  lemma {:induction false} RewriteByLookup(p: seq<Rule>, q: seq<Rule>, s: bytes)
    requires SameLookup(p, q)
    ensures Rewrite(p, s) == Rewrite(q, s)
    decreases |s|
  {
    if |s| >= 2 {
      assert Lookup(p, s[..2]) == Lookup(q, s[..2]);
      RewriteByLookup(p, q, s[1..]);
      RewriteByLookup(p, q, s[2..]);
    }
  }

  predicate DistinctTokens(p: seq<Rule>) { forall i, j :: 0 <= i < j < |p| ==> p[i].find != p[j].find }

  lemma {:induction false} LookupDistinct(p: seq<Rule>, r: Rule)
    requires DistinctTokens(p) && r in p
    ensures Lookup(p, r.find) == Some(r.replace)
  {
    if p[0] != r {
      var i :| 0 <= i < |p| && p[i] == r;
      assert p[0].find != p[i].find;
      LookupDistinct(p[1..], r);
    }
  }

  /** Rules with distinct tokens may be listed in any order. */
  lemma ReorderingIsIrrelevant(p: seq<Rule>, q: seq<Rule>, s: bytes)
    requires Clean(p) && DistinctTokens(p) && DistinctTokens(q)
    requires forall r :: r in p <==> r in q
    ensures PaletteOk(p) && PaletteOk(q) && ApplyRules(p, s) == ApplyRules(q, s)
  {
    forall token ensures Lookup(p, token) == Lookup(q, token) {
      if Lookup(p, token).Some? {
        var r := LookupIn(p, token);
        LookupDistinct(q, r);
      } else if Lookup(q, token).Some? {
        var r := LookupIn(q, token);
        InLookup(p, r);
      }
    }
    CleanByLookup(p, q);
    CleanIsLayered(p);
    CleanIsLayered(q);
    PassesAreSimultaneous(p, s);
    PassesAreSimultaneous(q, s);
    RewriteByLookup(p, q, s);
  }

  lemma CleanByLookup(p: seq<Rule>, q: seq<Rule>)
    requires Clean(p) && SameLookup(p, q) && forall r :: r in q ==> r in p
    ensures Clean(q)
  {
    forall r | r in q ensures Separated(q, r) {
      assert Separated(p, r);
      forall i ensures !TokenAt(q, r.replace, i) {
        assert !TokenAt(p, r.replace, i);
      }
    }
  }

  /** A rule whose token is listed before has no effect. */
  lemma ShadowedRuleIsDead(a: seq<Rule>, r: Rule, b: seq<Rule>, s: bytes)
    requires Clean(a + [r] + b) && Lookup(a, r.find).Some?
    ensures PaletteOk(a + [r] + b) && PaletteOk(a + b) && ApplyRules(a + [r] + b, s) == ApplyRules(a + b, s)
  {
    var p, q := a + [r] + b, a + b;
    forall token ensures Lookup(p, token) == Lookup(q, token) {
      LookupConcat(a + [r], b, token);
      LookupConcat(a, [r], token);
      LookupConcat(a, b, token);
    }
    assert forall x :: x in q ==> x in p;
    CleanByLookup(p, q);
    CleanIsLayered(p);
    CleanIsLayered(q);
    PassesAreSimultaneous(p, s);
    PassesAreSimultaneous(q, s);
    RewriteByLookup(p, q, s);
  }

  lemma {:induction false} LookupConcat(a: seq<Rule>, b: seq<Rule>, token: bytes)
    ensures Lookup(a + b, token) == if Lookup(a, token).Some? then Lookup(a, token) else Lookup(b, token)
  {
    if a == [] {
      assert a + b == b;
    } else {
      LookupConcat(a[1..], b, token);
      assert (a + b)[1..] == a[1..] + b;
    }
  }

  /** Where a pass disturbs a rule behind it the passes may differ from one pass: here the
      second rule replaces what the first one inserted. */
  lemma ChainedRulesDiffer()
    ensures var p := [Rule([1, 2], [3, 4]), Rule([3, 4], [5])];
      PaletteOk(p) && !Layered(p) && ApplyRules(p, [1, 2]) == [5] && Rewrite(p, [1, 2]) == [3, 4]
  {
    var p := [Rule([1, 2], [3, 4]), Rule([3, 4], [5])];
    var s: bytes := [1, 2];
    var t := ReplaceAll(s, [1, 2], [3, 4]);
    assert s[2..] == [] && t == [3, 4];
    assert t[2..] == [] && ReplaceAll(t, [3, 4], [5]) == [5];
    assert p[1..][1..] == [] && ApplyRules(p[1..], t) == [5];
    assert s[..2] == [1, 2] && Rewrite(p, s) == [3, 4] + Rewrite(p, []);
    if Layered(p) { PassesAreSimultaneous(p, s); }
  }
}
