/** The palette of `Server::CreateDefaultConfig`. */
module Palette {
  import opened Bytes
  import opened Wrappers
  import opened ColorFormat

  const ESC: byte := 27

  function Ascii(s: string): (b: bytes)
    ensures |b| == |s|
  {
    seq(|s|, i requires 0 <= i < |s| => s[i] as int % 256)
  }

  /** `CreateColor` with the terminal sequence of `code`. */
  function Color(token: string, code: string): Rule {
    Rule(Ascii(token), [ESC, '[' as int] + Ascii(code) + ['m' as int])
  }

  const FOREGROUND: seq<Rule> := [
    Color("&1", "30"), Color("&2", "31"), Color("&3", "32"), Color("&4", "33"),
    Color("&5", "34"), Color("&6", "35"), Color("&7", "36"), Color("&8", "37")]

  const BRIGHT_FOREGROUND: seq<Rule> := [
    Color("&9", "30;1"), Color("&0", "31;1"), Color("&a", "32;1"), Color("&c", "33;1"),
    Color("&d", "34;1"), Color("&e", "35;1"), Color("&g", "36;1"), Color("&f", "37;1")]

  const BACKGROUND: seq<Rule> := [
    Color("#1", "40"), Color("#2", "41"), Color("#3", "42"), Color("#4", "43"),
    Color("#5", "44"), Color("#6", "45"), Color("#7", "46"), Color("#8", "47")]

  /** The token `#e` is listed twice. */
  const BRIGHT_BACKGROUND: seq<Rule> := [
    Color("#9", "40;1"), Color("#0", "41;1"), Color("#a", "42;1"), Color("#c", "43;1"),
    Color("#e", "44;1"), Color("#e", "45;1"), Color("#g", "46;1"), Color("#f", "47;1")]

  const STYLES: seq<Rule> := [
    Color("$b", "1"), Color("$u", "4"), Color("$v", "7"), Color("$r", "0"), Color("#r", "0"), Color("&r", "0")]

  const DEFAULT: seq<Rule> := FOREGROUND + BRIGHT_FOREGROUND + BACKGROUND + BRIGHT_BACKGROUND + STYLES

  predicate IsLead(b: byte) { b == '&' as int || b == '#' as int || b == '$' as int }

  /** A token is a lead and a letter or digit; a replacement is an escape
      sequence that holds no lead. */
  predicate Shipped(r: Rule) {
    && |r.find| == 2 && IsLead(r.find[0]) && !IsLead(r.find[1]) && r.find[1] != ESC
    && |r.replace| >= 2 && r.replace[0] == ESC && forall i :: 0 <= i < |r.replace| ==> !IsLead(r.replace[i])
  }

  lemma ColorIsShipped(token: string, code: string)
    requires |token| == 2 && (token[0] == '&' || token[0] == '#' || token[0] == '$')
    requires '0' <= token[1] <= 'z'
    requires forall i :: 0 <= i < |code| ==> '0' <= code[i] <= ';'
    ensures Shipped(Color(token, code))
  {
    var r := Color(token, code);
    forall i | 0 <= i < |r.replace| ensures !IsLead(r.replace[i]) {
      if 2 <= i < |r.replace| - 1 {
        assert r.replace[i] == Ascii(code)[i - 2] == code[i - 2] as int % 256;
      }
    }
  }

  lemma ShippedIsClean(palette: seq<Rule>)
    requires forall r :: r in palette ==> Shipped(r)
    ensures Clean(palette)
  {
    forall r | r in palette ensures Separated(palette, r) {
      forall i ensures !TokenAt(palette, r.replace, i) {
        if 0 <= i && i + 2 <= |r.replace| {
          NoToken(palette, r.replace[i], r.replace[i + 1]);
          assert r.replace[i..i + 2] == [r.replace[i], r.replace[i + 1]];
        }
      }
    }
  }

  lemma ForegroundIsShipped()
    ensures forall r :: r in FOREGROUND ==> Shipped(r)
  {
    hide Color, Shipped;
    ColorIsShipped("&1", "30"); ColorIsShipped("&2", "31"); ColorIsShipped("&3", "32"); ColorIsShipped("&4", "33");
    ColorIsShipped("&5", "34"); ColorIsShipped("&6", "35"); ColorIsShipped("&7", "36"); ColorIsShipped("&8", "37");
  }

  lemma BrightForegroundIsShipped()
    ensures forall r :: r in BRIGHT_FOREGROUND ==> Shipped(r)
  {
    hide Color, Shipped;
    ColorIsShipped("&9", "30;1"); ColorIsShipped("&0", "31;1"); ColorIsShipped("&a", "32;1");
    ColorIsShipped("&c", "33;1"); ColorIsShipped("&d", "34;1"); ColorIsShipped("&e", "35;1");
    ColorIsShipped("&g", "36;1"); ColorIsShipped("&f", "37;1");
  }

  lemma BackgroundIsShipped()
    ensures forall r :: r in BACKGROUND ==> Shipped(r)
  {
    hide Color, Shipped;
    ColorIsShipped("#1", "40"); ColorIsShipped("#2", "41"); ColorIsShipped("#3", "42"); ColorIsShipped("#4", "43");
    ColorIsShipped("#5", "44"); ColorIsShipped("#6", "45"); ColorIsShipped("#7", "46"); ColorIsShipped("#8", "47");
  }

  lemma BrightBackgroundIsShipped()
    ensures forall r :: r in BRIGHT_BACKGROUND ==> Shipped(r)
  {
    hide Color, Shipped;
    ColorIsShipped("#9", "40;1"); ColorIsShipped("#0", "41;1"); ColorIsShipped("#a", "42;1");
    ColorIsShipped("#c", "43;1"); ColorIsShipped("#e", "44;1"); ColorIsShipped("#e", "45;1");
    ColorIsShipped("#g", "46;1"); ColorIsShipped("#f", "47;1");
  }

  lemma StylesAreShipped()
    ensures forall r :: r in STYLES ==> Shipped(r)
  {
    hide Color, Shipped;
    ColorIsShipped("$b", "1"); ColorIsShipped("$u", "4"); ColorIsShipped("$v", "7"); ColorIsShipped("$r", "0");
    ColorIsShipped("#r", "0"); ColorIsShipped("&r", "0");
  }

  lemma DefaultIsClean()
    ensures Clean(DEFAULT)
  {
    hide Shipped;
    ForegroundIsShipped();
    BrightForegroundIsShipped();
    BackgroundIsShipped();
    BrightBackgroundIsShipped();
    StylesAreShipped();
    ShippedIsClean(DEFAULT);
  }

  /** With the shipped palette the 38 passes are one pass, the result holds no
      token, and formatting twice is formatting once. */
  lemma DefaultFormat(s: bytes)
    ensures PaletteOk(DEFAULT) && ApplyRules(DEFAULT, s) == Rewrite(DEFAULT, s)
    ensures TokenFree(DEFAULT, ApplyRules(DEFAULT, s))
    ensures ApplyRules(DEFAULT, ApplyRules(DEFAULT, s)) == ApplyRules(DEFAULT, s)
  {
    DefaultIsClean();
    CleanIsLayered(DEFAULT);
    PassesAreSimultaneous(DEFAULT, s);
    FormatIsFinal(DEFAULT, s);
  }

  /** The second rule for `#e` never applies. */
  lemma SecondHashEIsDead(s: bytes)
    ensures DEFAULT[29] == Color("#e", "45;1")
    ensures PaletteOk(DEFAULT) && PaletteOk(DEFAULT[..29] + DEFAULT[30..])
    ensures ApplyRules(DEFAULT, s) == ApplyRules(DEFAULT[..29] + DEFAULT[30..], s)
  {
    hide Color;
    var a, r, b := DEFAULT[..29], DEFAULT[29], DEFAULT[30..];
    DefaultIsClean();
    assert a + [r] + b == DEFAULT;
    assert a[28] == Color("#e", "44;1") && r == Color("#e", "45;1");
    InLookup(a, a[28]);
    SameToken("44;1", "45;1");
    ShadowedRuleIsDead(a, r, b, s);
  }

  lemma SameToken(code: string, code': string)
    ensures Color("#e", code).find == Color("#e", code').find
  {
  }

  // ----- the shipped rules, byte by byte -----

  /** Number `k` of the shipped rules: the two bytes of its token and what stands
      between `ESC [` and `m` in its replacement. */
  function Entry(k: nat): (byte, byte, bytes)
    requires k < 38
  {
    if k == 0 then (38, 49, [51, 48])
    else if k == 1 then (38, 50, [51, 49])
    else if k == 2 then (38, 51, [51, 50])
    else if k == 3 then (38, 52, [51, 51])
    else if k == 4 then (38, 53, [51, 52])
    else if k == 5 then (38, 54, [51, 53])
    else if k == 6 then (38, 55, [51, 54])
    else if k == 7 then (38, 56, [51, 55])
    else if k == 8 then (38, 57, [51, 48, 59, 49])
    else if k == 9 then (38, 48, [51, 49, 59, 49])
    else if k == 10 then (38, 97, [51, 50, 59, 49])
    else if k == 11 then (38, 99, [51, 51, 59, 49])
    else if k == 12 then (38, 100, [51, 52, 59, 49])
    else if k == 13 then (38, 101, [51, 53, 59, 49])
    else if k == 14 then (38, 103, [51, 54, 59, 49])
    else if k == 15 then (38, 102, [51, 55, 59, 49])
    else if k == 16 then (35, 49, [52, 48])
    else if k == 17 then (35, 50, [52, 49])
    else if k == 18 then (35, 51, [52, 50])
    else if k == 19 then (35, 52, [52, 51])
    else if k == 20 then (35, 53, [52, 52])
    else if k == 21 then (35, 54, [52, 53])
    else if k == 22 then (35, 55, [52, 54])
    else if k == 23 then (35, 56, [52, 55])
    else if k == 24 then (35, 57, [52, 48, 59, 49])
    else if k == 25 then (35, 48, [52, 49, 59, 49])
    else if k == 26 then (35, 97, [52, 50, 59, 49])
    else if k == 27 then (35, 99, [52, 51, 59, 49])
    else if k == 28 then (35, 101, [52, 52, 59, 49])
    else if k == 29 then (35, 101, [52, 53, 59, 49])
    else if k == 30 then (35, 103, [52, 54, 59, 49])
    else if k == 31 then (35, 102, [52, 55, 59, 49])
    else if k == 32 then (36, 98, [49])
    else if k == 33 then (36, 117, [52])
    else if k == 34 then (36, 118, [55])
    else if k == 35 then (36, 114, [48])
    else if k == 36 then (35, 114, [48])
    else (38, 114, [48])
  }

  /** The number of the first rule with a token; 38 if there is none. */
  function Slot(a: int, b: int): nat {
    if a == 38 then
      if b == 49 then 0 else if b == 50 then 1 else if b == 51 then 2 else if b == 52 then 3 else
      if b == 53 then 4 else if b == 54 then 5 else if b == 55 then 6 else if b == 56 then 7 else
      if b == 57 then 8 else if b == 48 then 9 else if b == 97 then 10 else if b == 99 then 11 else
      if b == 100 then 12 else if b == 101 then 13 else if b == 103 then 14 else if b == 102 then 15 else
      if b == 114 then 37 else 38
    else if a == 35 then
      if b == 49 then 16 else if b == 50 then 17 else if b == 51 then 18 else if b == 52 then 19 else
      if b == 53 then 20 else if b == 54 then 21 else if b == 55 then 22 else if b == 56 then 23 else
      if b == 57 then 24 else if b == 48 then 25 else if b == 97 then 26 else if b == 99 then 27 else
      if b == 101 then 28 else if b == 103 then 30 else if b == 102 then 31 else if b == 114 then 36 else 38
    else if a == 36 then
      if b == 98 then 32 else if b == 117 then 33 else if b == 118 then 34 else if b == 114 then 35 else 38
    else 38
  }

  lemma EntrySlot(k: nat)
    requires k < 38
    ensures Slot(Entry(k).0 as int, Entry(k).1 as int) == if k == 29 then 28 else k
    ensures var e := Entry(k); e.0 == 35 || e.0 == 36 || e.0 == 38
    ensures var e := Entry(k); e.1 != 35 && e.1 != 36 && e.1 != 38
  {
  }

  lemma ColorIs(token: string, code: string, a: byte, b: byte, c: bytes)
    requires |token| == 2 && token[0] as int == a && token[1] as int == b
    requires |code| == |c| && forall i :: 0 <= i < |c| ==> code[i] as int == c[i]
    ensures Color(token, code) == Rule([a, b], [27, 91] + c + [109])
  {
    assert Ascii(token) == [a, b];
    assert Ascii(code) == c;
  }

  /** Rule number `k` of the palette is that entry. */
  predicate IsEntry(r: Rule, k: nat)
    requires k < 38
  {
    var e := Entry(k);
    r == Rule([e.0, e.1], [27, 91] + e.2 + [109])
  }

  lemma ForegroundEntries()
    ensures forall i :: 0 <= i < 8 ==> IsEntry(FOREGROUND[i], i)
  {
    hide Color;
    ColorIs("&1", "30", 38, 49, [51, 48]);
    ColorIs("&2", "31", 38, 50, [51, 49]);
    ColorIs("&3", "32", 38, 51, [51, 50]);
    ColorIs("&4", "33", 38, 52, [51, 51]);
    ColorIs("&5", "34", 38, 53, [51, 52]);
    ColorIs("&6", "35", 38, 54, [51, 53]);
    ColorIs("&7", "36", 38, 55, [51, 54]);
    ColorIs("&8", "37", 38, 56, [51, 55]);
  }

  lemma BrightForegroundEntries()
    ensures forall i :: 0 <= i < 8 ==> IsEntry(BRIGHT_FOREGROUND[i], i + 8)
  {
    hide Color;
    ColorIs("&9", "30;1", 38, 57, [51, 48, 59, 49]);
    ColorIs("&0", "31;1", 38, 48, [51, 49, 59, 49]);
    ColorIs("&a", "32;1", 38, 97, [51, 50, 59, 49]);
    ColorIs("&c", "33;1", 38, 99, [51, 51, 59, 49]);
    ColorIs("&d", "34;1", 38, 100, [51, 52, 59, 49]);
    ColorIs("&e", "35;1", 38, 101, [51, 53, 59, 49]);
    ColorIs("&g", "36;1", 38, 103, [51, 54, 59, 49]);
    ColorIs("&f", "37;1", 38, 102, [51, 55, 59, 49]);
  }

  lemma BackgroundEntries()
    ensures forall i :: 0 <= i < 8 ==> IsEntry(BACKGROUND[i], i + 16)
  {
    hide Color;
    ColorIs("#1", "40", 35, 49, [52, 48]);
    ColorIs("#2", "41", 35, 50, [52, 49]);
    ColorIs("#3", "42", 35, 51, [52, 50]);
    ColorIs("#4", "43", 35, 52, [52, 51]);
    ColorIs("#5", "44", 35, 53, [52, 52]);
    ColorIs("#6", "45", 35, 54, [52, 53]);
    ColorIs("#7", "46", 35, 55, [52, 54]);
    ColorIs("#8", "47", 35, 56, [52, 55]);
  }

  lemma BrightBackgroundEntries()
    ensures forall i :: 0 <= i < 8 ==> IsEntry(BRIGHT_BACKGROUND[i], i + 24)
  {
    hide Color;
    ColorIs("#9", "40;1", 35, 57, [52, 48, 59, 49]);
    ColorIs("#0", "41;1", 35, 48, [52, 49, 59, 49]);
    ColorIs("#a", "42;1", 35, 97, [52, 50, 59, 49]);
    ColorIs("#c", "43;1", 35, 99, [52, 51, 59, 49]);
    ColorIs("#e", "44;1", 35, 101, [52, 52, 59, 49]);
    ColorIs("#e", "45;1", 35, 101, [52, 53, 59, 49]);
    ColorIs("#g", "46;1", 35, 103, [52, 54, 59, 49]);
    ColorIs("#f", "47;1", 35, 102, [52, 55, 59, 49]);
  }

  lemma StylesEntries()
    ensures forall i :: 0 <= i < 6 ==> IsEntry(STYLES[i], i + 32)
  {
    hide Color;
    ColorIs("$b", "1", 36, 98, [49]);
    ColorIs("$u", "4", 36, 117, [52]);
    ColorIs("$v", "7", 36, 118, [55]);
    ColorIs("$r", "0", 36, 114, [48]);
    ColorIs("#r", "0", 35, 114, [48]);
    ColorIs("&r", "0", 38, 114, [48]);
  }

  lemma DefaultEntries()
    ensures |DEFAULT| == 38 && forall k :: 0 <= k < 38 ==> IsEntry(DEFAULT[k], k)
  {
    hide IsEntry, Color;
    ForegroundEntries();
    BrightForegroundEntries();
    BackgroundEntries();
    BrightBackgroundEntries();
    StylesEntries();
    forall k | 0 <= k < 38 ensures IsEntry(DEFAULT[k], k) {
      if k < 8 {
        assert DEFAULT[k] == FOREGROUND[k];
      } else if k < 16 {
        assert DEFAULT[k] == BRIGHT_FOREGROUND[k - 8];
      } else if k < 24 {
        assert DEFAULT[k] == BACKGROUND[k - 16];
      } else if k < 32 {
        assert DEFAULT[k] == BRIGHT_BACKGROUND[k - 24];
      } else {
        assert DEFAULT[k] == STYLES[k - 32];
      }
    }
  }

  lemma {:induction false} LookupAt(palette: seq<Rule>, k: nat)
    requires k < |palette| && forall j :: 0 <= j < k ==> palette[j].find != palette[k].find
    ensures Lookup(palette, palette[k].find) == Some(palette[k].replace)
  {
    if k > 0 { LookupAt(palette[1..], k - 1); }
  }

  lemma {:induction false} LookupIndex(palette: seq<Rule>, token: bytes) returns (j: nat)
    requires Lookup(palette, token).Some?
    ensures j < |palette| && palette[j].find == token
  {
    if palette[0].find == token {
      j := 0;
    } else {
      j := LookupIndex(palette[1..], token);
      j := j + 1;
    }
  }

  lemma EntryFind(r: Rule, k: nat)
    requires k < 38 && IsEntry(r, k)
    ensures |r.find| == 2 && r.find[0] == Entry(k).0 && r.find[1] == Entry(k).1
    ensures r.find == [Entry(k).0, Entry(k).1] && r.replace == [27, 91] + Entry(k).2 + [109]
  {
  }

  /** Each of the 37 tokens has its sequence, and there are no others. */
  lemma DefaultLookup(a: byte, b: byte)
    ensures Lookup(DEFAULT, [a, b])
      == if Slot(a as int, b as int) < 38 then Some([27, 91] + Entry(Slot(a as int, b as int)).2 + [109]) else None
  {
    DefaultEntries();
    hide IsEntry, Entry, Slot, Color;
    var k := Slot(a as int, b as int);
    SlotEntry(a, b);
    if k < 38 {
      EntryFind(DEFAULT[k], k);
      forall j | 0 <= j < k ensures DEFAULT[j].find != DEFAULT[k].find {
        EntryFind(DEFAULT[j], j);
        EntrySlot(j);
        EntrySlot(k);
      }
      LookupAt(DEFAULT, k);
    } else if Lookup(DEFAULT, [a, b]).Some? {
      var j := LookupIndex(DEFAULT, [a, b]);
      EntryFind(DEFAULT[j], j);
      EntrySlot(j);
    }
  }

  lemma SlotEntry(a: byte, b: byte)
    ensures var k := Slot(a as int, b as int);
      k <= 38 && k != 29 && (k < 38 ==> Entry(k).0 == a && Entry(k).1 == b)
  {
  }

  /** No two bytes of `s` are one of the tokens. */
  predicate NoTokenIn(s: bytes) { forall i :: 0 <= i < |s| - 1 ==> Slot(s[i] as int, s[i + 1] as int) == 38 }

  lemma NoTokenIsFree(s: bytes)
    requires NoTokenIn(s)
    ensures TokenFree(DEFAULT, s)
  {
    hide Slot, Lookup;
    forall i ensures !TokenAt(DEFAULT, s, i) {
      if 0 <= i && i + 2 <= |s| {
        DefaultLookup(s[i], s[i + 1]);
        assert s[i..i + 2] == [s[i], s[i + 1]];
      }
    }
  }

  /** A token between texts without tokens is replaced by its escape sequence:
      the bytes 27 and 91, its parameters, and 109. */
  lemma ShowsColor(k: nat, pre: bytes, post: bytes)
    requires k < 38 && k != 29 && NoTokenIn(pre) && NoTokenIn(post)
    ensures var (a, b, code) := Entry(k);
      PaletteOk(DEFAULT) && ApplyRules(DEFAULT, pre + [a, b] + post) == pre + ([27, 91] + code + [109]) + post
  {
    var (a, b, code) := Entry(k);
    hide *;
    EntrySlot(k);
    DefaultLookup(a, b);
    NoTokenIsFree(pre);
    NoTokenIsFree(post);
    if pre != [] {
      var x := pre[|pre| - 1];
      DefaultLookup(x, a);
      SlotEntry(x, a);
      LeadIsNotSecond(Slot(x as int, a as int), a);
    }
    ShowsAt(a, b, [27, 91] + code + [109], pre, post);
  }

  lemma ShowsAt(a: byte, b: byte, text: bytes, pre: bytes, post: bytes)
    requires Lookup(DEFAULT, [a, b]) == Some(text) && TokenFree(DEFAULT, pre) && TokenFree(DEFAULT, post)
    requires pre != [] ==> Lookup(DEFAULT, [pre[|pre| - 1], a]).None?
    ensures PaletteOk(DEFAULT) && ApplyRules(DEFAULT, pre + [a, b] + post) == pre + text + post
  {
    hide Lookup, TokenFree, ApplyRules, PaletteOk;
    var rest := [a, b] + post;
    assert pre + [a, b] + post == pre + rest;
    DefaultFormat(pre + rest);
    FreeIsUnchanged(DEFAULT, post);
    assert rest[..2] == [a, b] && rest[2..] == post;
    assert Rewrite(DEFAULT, rest) == text + post;
    SkipsFree(DEFAULT, pre, rest);
    Associates(pre, text, post);
  }

  lemma LeadIsNotSecond(k: nat, a: byte)
    requires k <= 38 && (k < 38 ==> Entry(k).1 == a) && (a == 35 || a == 36 || a == 38)
    ensures k == 38
  {
    hide Entry, Slot;
    if k < 38 { EntrySlot(k); }
  }

  /** A pass leaves text alone that holds no token and starts none at its end. */
  lemma {:induction false} SkipsFree(palette: seq<Rule>, text: bytes, rest: bytes)
    requires TokenFree(palette, text)
    requires text != [] && rest != [] ==> Lookup(palette, [text[|text| - 1], rest[0]]).None?
    ensures Rewrite(palette, text + rest) == text + Rewrite(palette, rest)
    decreases |text|
  {
    hide Lookup;
    if text == [] {
      assert text + rest == rest;
    } else {
      var head, tail, s := [text[0]], text[1..], text + rest;
      assert text == head + tail && s[1..] == tail + rest;
      TailIsFree(palette, text);
      assert !TokenAt(palette, text, 0);
      if |s| >= 2 {
        assert s[..2] == if |text| == 1 then [text[0], rest[0]] else text[0..2];
      }
      SkipsFree(palette, tail, rest);
      Associates(head, tail, Rewrite(palette, rest));
    }
  }
}
