/** The chat line of `EmitUserChatEvent`: `$0` becomes the user's name and then
    `$1` the message, each at its first place. */
module ChatFormat {
  import opened Bytes
  import opened Wrappers
  import opened ColorFormat

  const USER: bytes := ['$' as int, '0' as int]
  const MESSAGE: bytes := ['$' as int, '1' as int]
  const DOLLAR: byte := '$' as int
  const ONE: byte := '1' as int

  function ReplaceAt(s: bytes, i: nat, text: bytes): bytes
    requires i + 2 <= |s|
  {
    s[..i] + text + s[i + 2..]
  }

  /** `find(pat)`. */
  function FirstAt(s: bytes, pat: bytes): (r: Option<nat>)
    requires |pat| == 2
    ensures r.Some? ==> r.value + 2 <= |s|
  {
    var r := Find(s, pat, 0);
    if r.Some? then
      assert pat <= s[r.value..];
      r
    else r
  }

  function ReplaceFirst(s: bytes, pat: bytes, text: bytes): bytes
    requires |pat| == 2
  {
    match FirstAt(s, pat)
    case Some(i) => ReplaceAt(s, i, text)
    case None => s
  }

  /** What the code does: the second search looks at the inserted name too. */
  function InTurn(format: bytes, name: bytes, message: bytes): bytes {
    ReplaceFirst(ReplaceFirst(format, USER, name), MESSAGE, message)
  }

  /** What a template means: both places are looked up in the format. */
  function AtOnce(format: bytes, name: bytes, message: bytes): bytes {
    match (FirstAt(format, USER), FirstAt(format, MESSAGE))
    case (None, _) => ReplaceFirst(format, MESSAGE, message)
    case (_, None) => ReplaceFirst(format, USER, name)
    case (Some(u), Some(m)) =>
      if u + 2 <= m then format[..u] + name + format[u + 2..m] + message + format[m + 2..]
      else if m + 2 <= u then format[..m] + message + format[m + 2..u] + name + format[u + 2..]
      else format
  }

  method Emit(format: bytes, name: bytes, message: bytes) returns (msgFormat: bytes)
    ensures msgFormat == InTurn(format, name, message)
  {
    msgFormat := format;
    var index := FirstAt(msgFormat, USER);
    if index.Some? {
      msgFormat := msgFormat[..index.value] + name + msgFormat[index.value + 2..];
    }
    index := FirstAt(msgFormat, MESSAGE);
    if index.Some? {
      msgFormat := msgFormat[..index.value] + message + msgFormat[index.value + 2..];
    }
  }

  // ----- where the two agree -----

  predicate At(s: bytes, pat: bytes, i: int) {
    |pat| == 2 && 0 <= i && i + 2 <= |s| && s[i] == pat[0] && s[i + 1] == pat[1]
  }

  lemma AtIs(s: bytes, pat: bytes, i: nat)
    requires |pat| == 2 && i <= |s|
    ensures StartsWith(s[i..], pat) <==> At(s, pat, i)
  {
    var t := s[i..];
    if |t| >= 2 {
      assert t[0] == s[i] && t[1] == s[i + 1];
    }
  }

  /** `find` by the bytes at each position. */
  lemma FindIs(s: bytes, pat: bytes)
    requires |pat| == 2
    ensures var r := FirstAt(s, pat);
      && (r.Some? ==> At(s, pat, r.value) && forall i :: 0 <= i < r.value ==> !At(s, pat, i))
      && (r.None? ==> forall i :: !At(s, pat, i))
  {
    var r := Find(s, pat, 0);
    forall i | 0 <= i <= |s| ensures StartsWith(s[i..], pat) <==> At(s, pat, i) { AtIs(s, pat, i); }
  }

  lemma FindAt(s: bytes, pat: bytes, i: nat)
    requires |pat| == 2 && At(s, pat, i) && forall j :: 0 <= j < i ==> !At(s, pat, j)
    ensures FirstAt(s, pat) == Some(i)
  {
    hide FirstAt;
    FindIs(s, pat);
  }

  /** The name cannot be mistaken for the place of the message: it holds no
      `$1`, and none forms where it meets the format. Nothing can go wrong when
      the format has no `$0`, or has `$1` first. */
  predicate Unambiguous(format: bytes, name: bytes) {
    match FirstAt(format, USER)
    case None => true
    case Some(u) =>
      var rest := format[u + 2..];
      var m := FirstAt(format, MESSAGE);
      (m.Some? && m.value < u) ||
      (FirstAt(name, MESSAGE).None?
       && !(u > 0 && format[u - 1] == DOLLAR && name + rest != [] && (name + rest)[0] == ONE)
       && !(name != [] && name[|name| - 1] == DOLLAR && rest != [] && rest[0] == ONE))
  }

  /** `$1` at position `i` of the text with the name filled in, seen in the
      part of the text that it falls into. */
  lemma HitParts(a: bytes, name: bytes, rest: bytes, i: nat)
    ensures var t, u := a + name + rest, |a|;
      var l := u + |name|;
      && (i + 2 <= u ==> (At(t, MESSAGE, i) <==> At(a, MESSAGE, i)))
      && (i + 1 == u ==> (At(t, MESSAGE, i) <==>
            a[i] == DOLLAR && name + rest != [] && (name + rest)[0] == ONE))
      && (u <= i && i + 2 <= l ==> (At(t, MESSAGE, i) <==> At(name, MESSAGE, i - u)))
      && (u <= i && i + 1 == l ==> (At(t, MESSAGE, i) <==>
            name[|name| - 1] == DOLLAR && rest != [] && rest[0] == ONE))
      && (l <= i ==> (At(t, MESSAGE, i) <==> At(rest, MESSAGE, i - l)))
  {
    var t := a + name + rest;
    assert t == a + (name + rest);
    assert forall j :: 0 <= j < |a| ==> t[j] == a[j];
    assert forall j :: 0 <= j < |name| ==> t[|a| + j] == name[j];
    assert forall j :: 0 <= j < |rest| ==> t[|a| + |name| + j] == rest[j];
  }

  /** A format with `$0` at `u`: `$1` is at the same places before `u` and, two
      bytes on, in the rest; it cannot overlap `$0`. */
  lemma FormatParts(format: bytes, u: nat, i: nat)
    requires At(format, USER, u)
    ensures i + 2 <= u ==> (At(format, MESSAGE, i) <==> At(format[..u], MESSAGE, i))
    ensures u + 2 <= i ==> (At(format, MESSAGE, i) <==> At(format[u + 2..], MESSAGE, i - u - 2))
    ensures u <= i + 1 && i <= u + 1 ==> !At(format, MESSAGE, i)
  {
    var rest := format[u + 2..];
    assert forall j :: 0 <= j < |rest| ==> rest[j] == format[u + 2 + j];
  }

  /** The condition says that no `$1` starts before the end of the name. */
  lemma UnambiguousMeans(format: bytes, name: bytes, u: nat)
    requires FirstAt(format, USER) == Some(u)
    requires var m := FirstAt(format, MESSAGE); m.None? || u < m.value
    ensures u + 2 <= |format|
    ensures var t := format[..u] + name + format[u + 2..];
      Unambiguous(format, name) <==> forall i :: 0 <= i < u + |name| ==> !At(t, MESSAGE, i)
  {
    hide FirstAt;
    FindIs(format, USER);
    FindIs(format, MESSAGE);
    FindIs(name, MESSAGE);
    var a, rest := format[..u], format[u + 2..];
    var t, l := a + name + rest, u + |name|;
    forall i | 0 <= i < u - 1 ensures !At(t, MESSAGE, i) {
      HitParts(a, name, rest, i);
      FormatParts(format, u, i);
    }
    if u > 0 { HitParts(a, name, rest, u - 1); }
    if name != [] { HitParts(a, name, rest, l - 1); }
    forall i | u <= i < l - 1 ensures At(t, MESSAGE, i) <==> At(name, MESSAGE, i - u) {
      HitParts(a, name, rest, i);
    }
    if FirstAt(name, MESSAGE).Some? {
      var k := FirstAt(name, MESSAGE).value;
      assert At(t, MESSAGE, u + k);
    }
  }

  /** With `$0` first and nothing mistaken, `$1` is found at its place in the format. */
  lemma FoundBehindName(format: bytes, name: bytes, u: nat)
    requires FirstAt(format, USER) == Some(u) && Unambiguous(format, name)
    requires var m := FirstAt(format, MESSAGE); m.None? || u < m.value
    ensures var m := FirstAt(format, MESSAGE);
      && FirstAt(format[..u] + name + format[u + 2..], MESSAGE)
           == (if m.None? then None else Some(m.value - 2 + |name|))
      && (m.Some? ==> u + 2 <= m.value)
  {
    hide FirstAt;
    UnambiguousMeans(format, name, u);
    FindIs(format, USER);
    FindIs(format, MESSAGE);
    var a, rest := format[..u], format[u + 2..];
    var t, l, m := a + name + rest, u + |name|, FirstAt(format, MESSAGE);
    FindIs(t, MESSAGE);
    if m.Some? { FormatParts(format, u, m.value); }
    forall i | l <= i
      ensures At(t, MESSAGE, i) <==> At(format, MESSAGE, i - |name| + 2)
    {
      HitParts(a, name, rest, i);
      FormatParts(format, u, i - l + u + 2);
    }
    if m.Some? {
      assert At(t, MESSAGE, m.value - 2 + |name|);
      FindAt(t, MESSAGE, m.value - 2 + |name|);
    }
  }

  lemma AgreesBehindName(format: bytes, name: bytes, message: bytes, u: nat)
    requires FirstAt(format, USER) == Some(u) && Unambiguous(format, name)
    requires var m := FirstAt(format, MESSAGE); m.None? || u < m.value
    ensures InTurn(format, name, message) == AtOnce(format, name, message)
  {
    FoundBehindName(format, name, u);
    ReplaceParts(format, u, name, format[..u], format[u + 2..]);
    hide FirstAt, Unambiguous, At, ReplaceAt;
    if FirstAt(format, MESSAGE).Some? {
      var m := FirstAt(format, MESSAGE).value;
      CutsBehindName(format, name, u, m);
      ReplaceParts(format[..u] + name + format[u + 2..], m - 2 + |name|, message,
                   format[..u] + name + format[u + 2..m], format[m + 2..]);
    }
  }

  lemma ReplaceParts(s: bytes, i: nat, text: bytes, front: bytes, back: bytes)
    requires i + 2 <= |s| && s[..i] == front && s[i + 2..] == back
    ensures ReplaceAt(s, i, text) == front + text + back
  {
  }

  lemma CutsBehindName(format: bytes, name: bytes, u: nat, m: nat)
    requires u + 2 <= m && m + 2 <= |format|
    ensures var t, i := format[..u] + name + format[u + 2..], m - 2 + |name|;
      i + 2 <= |t| && t[..i] == format[..u] + name + format[u + 2..m] && t[i + 2..] == format[m + 2..]
  {
  }

  /** With `$1` first it is found where it stands in the format. */
  lemma FoundBeforeName(format: bytes, name: bytes, u: nat, m: nat)
    requires FirstAt(format, USER) == Some(u) && FirstAt(format, MESSAGE) == Some(m) && m < u
    ensures m + 2 <= u && u + 2 <= |format|
    ensures FirstAt(format[..u] + name + format[u + 2..], MESSAGE) == Some(m)
  {
    hide FirstAt;
    FindIs(format, USER);
    FindIs(format, MESSAGE);
    FormatParts(format, u, m);
    var a, rest := format[..u], format[u + 2..];
    var t := a + name + rest;
    forall j | 0 <= j <= m ensures At(t, MESSAGE, j) <==> j == m {
      HitParts(a, name, rest, j);
      FormatParts(format, u, j);
    }
    FindAt(t, MESSAGE, m);
  }

  lemma InTurnIs(format: bytes, name: bytes, message: bytes, u: nat, t: bytes, m: nat)
    requires FirstAt(format, USER) == Some(u) && u + 2 <= |format| && t == ReplaceAt(format, u, name)
    requires FirstAt(t, MESSAGE) == Some(m) && m + 2 <= |t|
    ensures InTurn(format, name, message) == ReplaceAt(t, m, message)
  {
    hide FirstAt, ReplaceAt;
  }

  lemma AtOnceIs(format: bytes, name: bytes, message: bytes, u: nat, m: nat)
    requires FirstAt(format, USER) == Some(u) && FirstAt(format, MESSAGE) == Some(m) && m + 2 <= u <= |format| - 2
    ensures AtOnce(format, name, message)
      == format[..m] + message + format[m + 2..u] + name + format[u + 2..]
  {
    hide FirstAt;
  }

  /** The name is filled in behind it. */
  lemma AgreesBeforeName(format: bytes, name: bytes, message: bytes, u: nat, m: nat)
    requires FirstAt(format, USER) == Some(u) && FirstAt(format, MESSAGE) == Some(m) && m < u
    ensures InTurn(format, name, message) == AtOnce(format, name, message)
  {
    hide *;
    FoundBeforeName(format, name, u, m);
    var a, rest := format[..u], format[u + 2..];
    var t := a + name + rest;
    ReplaceParts(format, u, name, a, rest);
    CutsBeforeName(format, name, u, m);
    ReplaceParts(t, m, message, format[..m], (format[m + 2..u] + name) + rest);
    InTurnIs(format, name, message, u, t, m);
    AtOnceIs(format, name, message, u, m);
    Associates(format[..m] + message, format[m + 2..u] + name, rest);
    Associates(format[..m] + message, format[m + 2..u], name);
  }

  lemma CutsBeforeName(format: bytes, name: bytes, u: nat, m: nat)
    requires m + 2 <= u && u + 2 <= |format|
    ensures var t := format[..u] + name + format[u + 2..];
      t[..m] == format[..m] && t[m + 2..] == (format[m + 2..u] + name) + format[u + 2..]
  {
  }

  const OTHER: byte := 'x' as int

  /** Otherwise the message lands inside or across the name, and a message of
      one other letter shows it. */
  lemma AmbiguousDiffers(format: bytes, name: bytes)
    requires !Unambiguous(format, name)
    ensures InTurn(format, name, [OTHER]) != AtOnce(format, name, [OTHER])
  {
    hide FirstAt;
    var u := FirstAt(format, USER).value;
    FindIs(format, USER);
    FindIs(format, MESSAGE);
    var place := FirstAt(format, MESSAGE);
    if place.Some? { FormatParts(format, u, place.value); }
    UnambiguousMeans(format, name, u);
    var a, rest := format[..u], format[u + 2..];
    var t, l := a + name + rest, u + |name|;
    assert t == ReplaceFirst(format, USER, name);
    FindIs(t, MESSAGE);
    var q := FirstAt(t, MESSAGE).value;
    assert q < l;
    var turn, once := InTurn(format, name, [OTHER]), AtOnce(format, name, [OTHER]);
    assert turn[q] == OTHER;
    match FirstAt(format, MESSAGE)
    case None => assert once == t;
    case Some(m) =>
      FormatParts(format, u, m);
      assert once == (a + name) + (format[u + 2..m] + [OTHER] + format[m + 2..]);
      assert once[q] == (a + name)[q] == t[q];
  }

  /** Filling in one after the other is filling in at once, for every message,
      exactly when the name is unambiguous in the format. */
  lemma AgreeIff(format: bytes, name: bytes)
    ensures (forall message :: InTurn(format, name, message) == AtOnce(format, name, message))
      <==> Unambiguous(format, name)
  {
    hide FirstAt;
    if Unambiguous(format, name) {
      forall message ensures InTurn(format, name, message) == AtOnce(format, name, message) {
        match FirstAt(format, USER)
        case None =>
        case Some(u) =>
          FindIs(format, USER);
          FindIs(format, MESSAGE);
          var m := FirstAt(format, MESSAGE);
          if m.Some? && m.value < u {
            AgreesBeforeName(format, name, message, u, m.value);
          } else {
            if m.Some? { FormatParts(format, u, m.value); }
            AgreesBehindName(format, name, message, u);
          }
      }
    } else {
      FindIs(format, USER);
      FindIs(format, MESSAGE);
      var u, m := FirstAt(format, USER).value, FirstAt(format, MESSAGE);
      if m.Some? { FormatParts(format, u, m.value); }
      AmbiguousDiffers(format, name);
    }
  }

  // ----- the basic listener -----

  /** The format of `BasicServerEventListener`: an emoji, a space, `$0: $1`. */
  function BasicFormat(emoji: bytes): bytes { emoji + [' ' as int] + USER + [':' as int, ' ' as int] + MESSAGE }

  /** With that format the two agree for every message exactly when the name
      does not contain `$1`, and then the line is what one expects. */
  lemma BasicFormatAgrees(emoji: bytes, name: bytes)
    requires forall i :: 0 <= i < |emoji| ==> emoji[i] != DOLLAR
    ensures (forall message :: InTurn(BasicFormat(emoji), name, message) == AtOnce(BasicFormat(emoji), name, message))
      <==> FirstAt(name, MESSAGE).None?
    ensures forall message: bytes ::
      AtOnce(BasicFormat(emoji), name, message) == emoji + [' ' as int] + name + [':' as int, ' ' as int] + message
  {
    hide FirstAt;
    var f, u := BasicFormat(emoji), |emoji| + 1;
    assert forall j :: 0 <= j < |emoji| ==> f[j] == emoji[j];
    FindAt(f, USER, u);
    FindAt(f, MESSAGE, u + 4);
    assert f[..u] == emoji + [' ' as int] && f[u + 2..] == [':' as int, ' ' as int] + MESSAGE;
    AgreeIff(f, name);
    assert (name + f[u + 2..])[0] != ONE || name != [];
    assert f[u + 2..u + 4] == [':' as int, ' ' as int] && f[u + 6..] == [];
    forall message: bytes
      ensures AtOnce(f, name, message) == emoji + [' ' as int] + name + [':' as int, ' ' as int] + message
    {
      var front := emoji + [' ' as int] + name + [':' as int, ' ' as int];
      assert front + message + [] == front + message;
    }
  }

  /** No dollar sign. */
  predicate NoDollar(s: bytes) { forall i :: 0 <= i < |s| ==> s[i] != 36 }

  /** By the bytes: `$0` is replaced by the name and `$1` by the message. */
  lemma FillsIn(a: bytes, b: bytes, c: bytes, name: bytes, message: bytes)
    requires NoDollar(a) && NoDollar(b) && NoDollar(name)
    ensures InTurn(a + [36, 48] + b + [36, 49] + c, name, message) == a + name + b + message + c
  {
    hide FirstAt;
    var f, u := a + [36, 48] + b + [36, 49] + c, |a|;
    var tail := [36, 48] + b + [36, 49] + c;
    assert f == a + tail && f[u + 2..] == b + [36, 49] + c && f[..u] == a;
    assert forall i :: 0 <= i < u ==> f[i] == a[i];
    assert f[u] == 36 && f[u + 1] == 48;
    FindAt(f, USER, u);
    var t, m := a + name + (b + [36, 49] + c), |a| + |name| + |b|;
    assert ReplaceFirst(f, USER, name) == t;
    assert forall i :: 0 <= i < m ==> t[i] == (a + name + b)[i];
    assert t[m] == 36 && t[m + 1] == 49 && t[..m] == a + name + b && t[m + 2..] == c;
    FindAt(t, MESSAGE, m);
  }

  /** The format of the basic listener: an emoji, a space, `$0`, a colon, a space, `$1`. */
  lemma BasicFormatIs(emoji: bytes)
    ensures BasicFormat(emoji) == emoji + [32, 36, 48, 58, 32, 36, 49]
  {
  }
}
