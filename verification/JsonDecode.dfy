/** The JSON parser: its recursive specification and its index-passing loops. */
module JsonDecode {
  import opened Bytes
  import opened Wrappers
  import opened JsonText
  import opened JsonString
  import opened JsonNumber
  import opened JsonSyntax

  // ----- specification: what each parser finds at the front of a text -----

  function NumberAt(s: bytes, read: Reader): Parsed<Value> {
    var x := WordLength(s);
    match ToNumber(s[..x], read)
    case Some(n) => Found(Number(n), x)
    case None => Error
  }

  function LiteralAt(s: bytes): Parsed<Value> {
    var x := WordLength(s);
    var word := s[..x];
    if word == TRUE then Found(Boolean(true), x)
    else if word == FALSE then Found(Boolean(false), x)
    else if word == NULL then Found(Nil, x)
    else Error
  }

  function StringAt(s: bytes): (r: Parsed<Value>)
    requires s != []
    ensures r.Found? ==> 0 < r.len <= |s|
  {
    match ReadString(s)
    case Found(v, n) => Found(String(v), n)
    case Error => Error
  }

  predicate StartsLiteral(b: byte) { b == 't' as int || b == 'f' as int || b == 'n' as int }

  function ValueAt(s: bytes, read: Reader): (r: Parsed<Value>)
    ensures r.Found? ==> 0 < r.len <= |s|
    decreases |s|, 0
  {
    if s == [] then Error
    else if s[0] == QUOTE then StringAt(s)
    else if StartsNumber(s[0]) then NumberAt(s, read)
    else if StartsLiteral(s[0]) then LiteralAt(s)
    else if s[0] == LBRACKET then Shift(1, ItemsAt(s[1..], map[], 1, read))
    else if s[0] == LBRACE then Shift(1, MembersAt(s[1..], map[], read))
    else Error
  }

  /** One round of `parse_array` or `parse_object`, with the position after it. */
  datatype Round<+T> =
    | Fail
    | Close(pos: nat)              // the closing bracket
    | Last(item: T, pos: nat)      // an item and the closing bracket
    | More(item: T, pos: nat)      // an item and a comma

  /** What follows an item that ends at position `at`. */
  function AfterItem<T>(s: bytes, at: nat, item: T, close: byte): (r: Round<T>)
    requires at <= |s|
    ensures r.More? || r.Last? ==> at < r.pos <= |s|
    ensures !r.Close?
  {
    var b := at + SkipSpace(s[at..]);
    if b < |s| && s[b] == close then Last(item, b + 1)
    else if b < |s| && s[b] == COMMA then More(item, b + 1)
    else Fail
  }

  function ItemRound(s: bytes, i: nat, read: Reader): (r: Round<Value>)
    requires i <= |s|
    ensures !r.Fail? ==> i < r.pos <= |s|
    decreases |s| - i, 1
  {
    var a := i + SkipSpace(s[i..]);
    if a < |s| && s[a] == RBRACKET then Close(a + 1)
    else
      match Shift(a, ValueAt(s[a..], read))
      case Error => Fail
      case Found(x, j) => AfterItem(s, j, x, RBRACKET)
  }

  function MemberRound(s: bytes, i: nat, read: Reader): (r: Round<(bytes, Value)>)
    requires i <= |s|
    ensures !r.Fail? ==> i < r.pos <= |s|
    decreases |s| - i, 1
  {
    var a := i + SkipSpace(s[i..]);
    if a < |s| && s[a] == RBRACE then Close(a + 1)
    else if a == |s| || s[a] != QUOTE then Fail
    else
      match Shift(a, ReadString(s[a..]))
      case Error => Fail
      case Found(key, j) => ColonAndValue(s, j, key, read)
  }

  function ColonAndValue(s: bytes, i: nat, key: bytes, read: Reader): (r: Round<(bytes, Value)>)
    requires i <= |s|
    ensures r.More? || r.Last? ==> i < r.pos <= |s|
    ensures !r.Close?
    decreases |s| - i, 1
  {
    var b := i + SkipSpace(s[i..]);
    if b == |s| || s[b] != COLON then Fail
    else
      var c := b + 1 + SkipSpace(s[b + 1..]);
      match Shift(c, ValueAt(s[c..], read))
      case Error => Fail
      case Found(x, k) => AfterItem(s, k, (key, x), RBRACE)
  }

  /** The rounds of `parse_array` from the state where `t` holds the items
      before the `n`th. */
  function ItemsAt(s: bytes, t: Fields, n: int, read: Reader): (r: Parsed<Value>)
    ensures r.Found? ==> 0 < r.len <= |s|
    decreases |s|, 2
  {
    match ItemRound(s, 0, read)
    case Fail => Error
    case Close(j) => Found(Table(t), j)
    case Last(x, j) => Found(Table(SetField(t, IntKey(n), x)), j)
    case More(x, j) => Shift(j, ItemsAt(s[j..], SetField(t, IntKey(n), x), n + 1, read))
  }

  /** The rounds of `parse_object` from the state where `t` holds the members read. */
  function MembersAt(s: bytes, t: Fields, read: Reader): (r: Parsed<Value>)
    ensures r.Found? ==> 0 < r.len <= |s|
    decreases |s|, 2
  {
    match MemberRound(s, 0, read)
    case Fail => Error
    case Close(j) => Found(Table(t), j)
    case Last(m, j) => Found(Table(SetField(t, StrKey(m.0), m.1)), j)
    case More(m, j) => Shift(j, MembersAt(s[j..], SetField(t, StrKey(m.0), m.1), read))
  }

  /** `json.decode`. */
  function Decode(s: bytes, read: Reader): Result<Value> {
    var a := SkipSpace(s);
    match ValueAt(s[a..], read)
    case Error => Failure
    case Found(v, len) =>
      var b := a + len + SkipSpace(s[a + len..]);
      if b < |s| then Failure else Success(v)
  }

  // ----- the loops -----

  function ShiftRound<T>(k: nat, r: Round<T>): Round<T> {
    match r
    case Fail => Fail
    case Close(j) => Close(k + j)
    case Last(x, j) => Last(x, k + j)
    case More(x, j) => More(x, k + j)
  }

  lemma AfterItemIn<T>(s: bytes, i: nat, at: nat, item: T, close: byte)
    requires i + at <= |s|
    ensures AfterItem(s, i + at, item, close) == ShiftRound(i, AfterItem(s[i..], at, item, close))
  {
    assert s[i..][at..] == s[i + at..];
  }

  lemma ItemRoundIn(s: bytes, i: nat, at: nat, read: Reader)
    requires i + at <= |s|
    ensures ItemRound(s, i + at, read) == ShiftRound(i, ItemRound(s[i..], at, read))
  {
    hide ValueAt, Scan, AfterItem;
    var t := s[i..];
    assert t[at..] == s[i + at..];
    var a := at + SkipSpace(t[at..]);
    assert t[a..] == s[i + a..];
    match ValueAt(t[a..], read)
    case Error =>
    case Found(x, len) => AfterItemIn(s, i, a + len, x, RBRACKET);
  }

  lemma ColonAndValueIn(s: bytes, i: nat, at: nat, key: bytes, read: Reader)
    requires i + at <= |s|
    ensures ColonAndValue(s, i + at, key, read) == ShiftRound(i, ColonAndValue(s[i..], at, key, read))
  {
    hide ValueAt, Scan, AfterItem;
    var t := s[i..];
    assert t[at..] == s[i + at..];
    var b := at + SkipSpace(t[at..]);
    if b < |t| && t[b] == COLON {
      assert t[b + 1..] == s[i + b + 1..];
      var c := b + 1 + SkipSpace(t[b + 1..]);
      assert t[c..] == s[i + c..];
      match ValueAt(t[c..], read)
      case Error =>
      case Found(x, len) => AfterItemIn(s, i, c + len, (key, x), RBRACE);
    }
  }

  lemma MemberRoundIn(s: bytes, i: nat, at: nat, read: Reader)
    requires i + at <= |s|
    ensures MemberRound(s, i + at, read) == ShiftRound(i, MemberRound(s[i..], at, read))
  {
    hide ReadString, Scan, ColonAndValue;
    var t := s[i..];
    assert t[at..] == s[i + at..];
    var a := at + SkipSpace(t[at..]);
    assert t[a..] == s[i + a..];
    if a < |t| && t[a] == QUOTE {
      match ReadString(t[a..])
      case Error =>
      case Found(key, len) => ColonAndValueIn(s, i, a + len, key, read);
    }
  }

  /** A round at position `i` of the whole text, in the terms of the loop. */
  lemma ItemsFrom(s: bytes, i: nat, t: Fields, n: int, read: Reader)
    requires i <= |s|
    ensures var r, p := ItemRound(s, i, read), Shift(i, ItemsAt(s[i..], t, n, read));
      && (r.Fail? ==> p == Error)
      && (r.Close? ==> p == Found(Table(t), r.pos))
      && (r.Last? ==> p == Found(Table(SetField(t, IntKey(n), r.item)), r.pos))
      && (r.More? ==> p == Shift(r.pos, ItemsAt(s[r.pos..], SetField(t, IntKey(n), r.item), n + 1, read)))
  {
    hide ItemRound;
    ItemRoundIn(s, i, 0, read);
    match ItemRound(s[i..], 0, read)
    case Fail =>
    case Close(j) =>
    case Last(x, j) =>
    case More(x, j) => assert s[i..][j..] == s[i + j..];
  }

  lemma MembersFrom(s: bytes, i: nat, t: Fields, read: Reader)
    requires i <= |s|
    ensures var r, p := MemberRound(s, i, read), Shift(i, MembersAt(s[i..], t, read));
      && (r.Fail? ==> p == Error)
      && (r.Close? ==> p == Found(Table(t), r.pos))
      && (r.Last? ==> p == Found(Table(SetField(t, StrKey(r.item.0), r.item.1)), r.pos))
      && (r.More? ==> p == Shift(r.pos, MembersAt(s[r.pos..], SetField(t, StrKey(r.item.0), r.item.1), read)))
  {
    hide MemberRound;
    MemberRoundIn(s, i, 0, read);
    match MemberRound(s[i..], 0, read)
    case Fail =>
    case Close(j) =>
    case Last(_, j) =>
    case More(_, j) => assert s[i..][j..] == s[i + j..];
  }

  method ParseNumber(str: bytes, i: nat, read: Reader) returns (r: Parsed<Value>)
    requires i <= |str|
    ensures r == Shift(i, NumberAt(str[i..], read))
  {
    var x := NextChar(str, i, DelimChars, false);
    var s := str[i..x];
    assert s == str[i..][..x - i];
    var n := ToNumber(s, read);
    if n.None? {
      return Error;
    }
    return Found(Number(n.value), x);
  }

  method ParseLiteral(str: bytes, i: nat) returns (r: Parsed<Value>)
    requires i <= |str|
    ensures r == Shift(i, LiteralAt(str[i..]))
  {
    var x := NextChar(str, i, DelimChars, false);
    var word := str[i..x];
    assert word == str[i..][..x - i];
    if word == TRUE {
      return Found(Boolean(true), x);
    } else if word == FALSE {
      return Found(Boolean(false), x);
    } else if word == NULL {
      return Found(Nil, x);
    }
    return Error;
  }

  /** `parse` dispatches on the first character; the result carries the
      position just past the value. */
  method Parse(str: bytes, idx: nat, read: Reader) returns (r: Parsed<Value>)
    requires idx <= |str|
    ensures r == Shift(idx, ValueAt(str[idx..], read))
    ensures r.Found? ==> idx < r.len <= |str|
    decreases |str| - idx, 0
  {
    if idx == |str| {
      return Error;
    }
    var chr := str[idx];
    assert str[idx..][0] == chr && str[idx..][1..] == str[idx + 1..];
    if chr == QUOTE {
      var q := ParseString(str, idx);
      return if q.Error? then Error else Found(String(q.value), q.len);
    } else if StartsNumber(chr) {
      r := ParseNumber(str, idx, read);
    } else if StartsLiteral(chr) {
      r := ParseLiteral(str, idx);
    } else if chr == LBRACKET {
      r := ParseArray(str, idx, read);
    } else if chr == LBRACE {
      r := ParseObject(str, idx, read);
    } else {
      return Error;
    }
  }

  method ParseArray(str: bytes, idx: nat, read: Reader) returns (r: Parsed<Value>)
    requires idx < |str|
    ensures r == Shift(idx + 1, ItemsAt(str[idx + 1..], map[], 1, read))
    decreases |str| - idx - 1, 1
  {
    hide ItemsAt, ValueAt, Scan;
    var res: Fields := map[];
    var n := 1;
    var i := idx + 1;
    while true
      invariant idx < i <= |str|
      invariant Shift(idx + 1, ItemsAt(str[idx + 1..], map[], 1, read)) == Shift(i, ItemsAt(str[i..], res, n, read))
      decreases |str| - i
    {
      ItemsFrom(str, i, res, n, read);
      i := NextChar(str, i, SpaceChars, true);
      if i < |str| && str[i] == RBRACKET {
        i := i + 1;
        break;
      }
      var x := Parse(str, i, read);
      if x.Error? {
        return Error;
      }
      i := x.len;
      res := SetField(res, IntKey(n), x.value);
      n := n + 1;
      i := NextChar(str, i, SpaceChars, true);
      if i == |str| {
        return Error;
      }
      var chr := str[i];
      i := i + 1;
      if chr == RBRACKET {
        break;
      }
      if chr != COMMA {
        return Error;
      }
    }
    return Found(Table(res), i);
  }

  // The rounds of `parse_object`, case by case in the positions the loop computes.

  lemma BeforeKey(s: bytes, i: nat, a: nat, read: Reader)
    requires i <= a <= |s| && a == i + SkipSpace(s[i..])
    ensures a < |s| && s[a] == RBRACE ==> MemberRound(s, i, read) == Close(a + 1)
    ensures a == |s| || (s[a] != RBRACE && s[a] != QUOTE) ==> MemberRound(s, i, read).Fail?
    ensures a < |s| && s[a] == QUOTE && ReadString(s[a..]).Error? ==> MemberRound(s, i, read).Fail?
  {
    hide ReadString, ValueAt, Scan, ColonAndValue;
  }

  /** The key is the string from `a` and ends at `key.len`. */
  ghost predicate KeyAt(s: bytes, i: nat, a: nat, key: Parsed<bytes>) {
    && i <= a < |s| && a == i + SkipSpace(s[i..]) && s[a] == QUOTE
    && key == Shift(a, ReadString(s[a..])) && key.Found? && key.len <= |s|
  }

  lemma AtColon(s: bytes, i: nat, a: nat, key: Parsed<bytes>, b: nat, read: Reader)
    requires KeyAt(s, i, a, key) && b == key.len + SkipSpace(s[key.len..])
    requires b == |s| || (b < |s| && s[b] != COLON)
    ensures MemberRound(s, i, read).Fail?
  {
    hide ReadString, ValueAt, Scan, AfterItem;
    assert MemberRound(s, i, read) == ColonAndValue(s, key.len, key.value, read);
  }

  lemma AtValue(s: bytes, i: nat, a: nat, key: Parsed<bytes>, b: nat, c: nat, val: Parsed<Value>, read: Reader)
    requires KeyAt(s, i, a, key) && b == key.len + SkipSpace(s[key.len..])
    requires b < |s| && s[b] == COLON && b < c <= |s| && c == b + 1 + SkipSpace(s[b + 1..])
    requires val == Shift(c, ValueAt(s[c..], read))
    ensures val.Error? ==> MemberRound(s, i, read).Fail?
    ensures val.Found? ==> val.len <= |s|
    ensures val.Found? ==> MemberRound(s, i, read) == AfterItem(s, val.len, (key.value, val.value), RBRACE)
  {
    hide ReadString, ValueAt, Scan, AfterItem;
    assert MemberRound(s, i, read) == ColonAndValue(s, key.len, key.value, read);
  }

  /** The character at `b`, past the white space behind an item, decides. */
  lemma AtEndOfItem<T>(s: bytes, at: nat, b: nat, item: T, close: byte)
    requires at <= b <= |s| && b == at + SkipSpace(s[at..])
    ensures b == |s| || (s[b] != close && s[b] != COMMA) ==> AfterItem(s, at, item, close).Fail?
    ensures b < |s| && s[b] == close ==> AfterItem(s, at, item, close) == Last(item, b + 1)
    ensures b < |s| && s[b] == COMMA && COMMA != close ==> AfterItem(s, at, item, close) == More(item, b + 1)
  {
  }

  method ParseObject(str: bytes, idx: nat, read: Reader) returns (r: Parsed<Value>)
    requires idx < |str|
    ensures r == Shift(idx + 1, MembersAt(str[idx + 1..], map[], read))
    decreases |str| - idx - 1, 1
  {
    hide MembersAt, MemberRound, ValueAt, Scan, ReadString, ColonAndValue, AfterItem;
    var res: Fields := map[];
    var i := idx + 1;
    ghost var goal := Shift(idx + 1, MembersAt(str[idx + 1..], map[], read));
    while true
      invariant idx < i <= |str|
      invariant goal == Shift(i, MembersAt(str[i..], res, read))
      decreases |str| - i
    {
      ghost var start, round := i, MemberRound(str, i, read);
      MembersFrom(str, i, res, read);
      i := NextChar(str, i, SpaceChars, true);
      ghost var a := i;
      BeforeKey(str, start, a, read);
      if i < |str| && str[i] == RBRACE {
        return Found(Table(res), i + 1);
      }
      if i == |str| || str[i] != QUOTE {
        return Error;
      }
      var key := ParseString(str, i);
      if key.Error? {
        return Error;
      }
      i := NextChar(str, key.len, SpaceChars, true);
      ghost var b := i;
      if i == |str| || str[i] != COLON {
        AtColon(str, start, a, key, b, read);
        return Error;
      }
      i := NextChar(str, i + 1, SpaceChars, true);
      var val := Parse(str, i, read);
      AtValue(str, start, a, key, b, i, val, read);
      if val.Error? {
        return Error;
      }
      res := SetField(res, StrKey(key.value), val.value);
      i := NextChar(str, val.len, SpaceChars, true);
      AtEndOfItem(str, val.len, i, (key.value, val.value), RBRACE);
      if i == |str| {
        return Error;
      }
      var chr := str[i];
      i := i + 1;
      if chr == RBRACE {
        return Found(Table(res), i);
      }
      if chr != COMMA {
        return Error;
      }
    }
  }

  method DecodeJson(str: bytes, read: Reader) returns (r: Result<Value>)
    ensures r == Decode(str, read)
  {
    var start := NextChar(str, 0, SpaceChars, true);
    assert str[0..] == str;
    var res := Parse(str, start, read);
    if res.Error? {
      return Failure;
    }
    var idx := NextChar(str, res.len, SpaceChars, true);
    if idx < |str| {
      return Failure;
    }
    return Success(res.value);
  }
}
