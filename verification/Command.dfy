/** `CommandEvent`: a command line split at spaces, and the setters that keep
    its two fields in agreement. */
module Command {
  import opened Bytes

  const SPACE: byte := ' ' as int

  predicate NoSpace(s: bytes) { forall i :: 0 <= i < |s| ==> s[i] != SPACE }

  /** The length of the run of spaces at the front. */
  function Run(s: bytes): (n: nat)
    ensures n <= |s|
    ensures forall i :: 0 <= i < n ==> s[i] == SPACE
    ensures n < |s| ==> s[n] != SPACE
  {
    if s == [] || s[0] != SPACE then 0 else 1 + Run(s[1..])
  }

  /** The length of the word at the front. */
  function Word(s: bytes): (n: nat)
    ensures n <= |s|
    ensures NoSpace(s[..n])
    ensures n < |s| ==> s[n] == SPACE
  {
    if s == [] || s[0] == SPACE then 0
    else
      assert s[..1 + Word(s[1..])] == [s[0]] + s[1..][..Word(s[1..])];
      1 + Word(s[1..])
  }

  /** `boost::split` at spaces with `token_compress_on`: a run of spaces
      separates once, and one at an end leaves an empty token there. */
  function Split(s: bytes): (args: seq<bytes>)
    ensures args != []
    decreases |s|
  {
    var w := Word(s);
    if w == |s| then [s] else [s[..w]] + Split(s[w + Run(s[w..])..])
  }

  /** The arguments with one space between two of them. */
  function Join(args: seq<bytes>): bytes {
    if args == [] then [] else if |args| == 1 then args[0] else args[0] + [SPACE] + Join(args[1..])
  }

  /** Every run of spaces shortened to one. */
  function Collapse(s: bytes): bytes {
    if s == [] then []
    else if s[0] == SPACE && |s| > 1 && s[1] == SPACE then Collapse(s[1..])
    else [s[0]] + Collapse(s[1..])
  }

  // ----- the object -----

  class CommandEvent {
    var command: bytes
    var args: seq<bytes>

    /** There is a first argument, and it is the command. */
    predicate Valid()
      reads this
    {
      args != [] && command == args[0]
    }

    constructor (message: bytes)
      ensures Valid() && args == Split(message)
    {
      command := Split(message)[0];
      args := Split(message);
    }

    method SetCommandMessage(message: bytes)
      modifies this
      ensures Valid() && args == Split(message)
    {
      var words := Split(message);
      command := words[0];
      args := words;
    }

    method SetCommand(command: bytes)
      requires Valid()
      modifies this
      ensures Valid() && args == old(args)[0 := command]
    {
      this.command := command;
      args := args[0 := command];
    }

    method SetCommandArgs(args: seq<bytes>)
      requires args != []
      modifies this
      ensures Valid() && this.args == args
    {
      this.args := args;
      command := args[0];
    }

    /** Appends every argument with a space behind it and cuts off the last space. */
    method GetFullCommand() returns (result: bytes)
      requires Valid()
      ensures result == Join(args)
    {
      result := [];
      var i := 0;
      assert args[..0] == [];
      while i < |args|
        invariant i <= |args| && result == Spaced(args[..i])
      {
        SpacedAppend(args[..i], args[i]);
        assert args[..i + 1] == args[..i] + [args[i]];
        result := result + (args[i] + [SPACE]);
        i := i + 1;
      }
      assert args[..i] == args;
      SpacedIsJoin(args);
      result := result[..|result| - 1];
    }
  }

  function Spaced(args: seq<bytes>): bytes {
    if args == [] then [] else args[0] + [SPACE] + Spaced(args[1..])
  }

  lemma {:induction false} SpacedAppend(args: seq<bytes>, arg: bytes)
    ensures Spaced(args + [arg]) == Spaced(args) + (arg + [SPACE])
  {
    if args == [] {
      assert [] + [arg] == [arg] && [arg][1..] == [];
      assert Spaced([arg]) == arg + [SPACE] + [];
    } else {
      assert (args + [arg])[1..] == args[1..] + [arg];
      SpacedAppend(args[1..], arg);
      Associates(args[0] + [SPACE], Spaced(args[1..]), arg + [SPACE]);
    }
  }

  lemma {:induction false} SpacedIsJoin(args: seq<bytes>)
    requires args != []
    ensures Spaced(args) == Join(args) + [SPACE]
  {
    if |args| == 1 {
      assert Spaced(args) == args[0] + [SPACE] + [];
    } else {
      SpacedIsJoin(args[1..]);
      Associates(args[0] + [SPACE], Join(args[1..]), [SPACE]);
    }
  }

  // ----- splitting and joining -----

  /** No argument holds a space, and only the first and the last may be empty. */
  predicate Tokens(args: seq<bytes>) {
    && args != []
    && (forall i :: 0 <= i < |args| ==> NoSpace(args[i]))
    && (forall i :: 0 < i < |args| - 1 ==> args[i] != [])
  }

  lemma {:induction false} SplitIsTokens(s: bytes)
    ensures Tokens(Split(s))
    ensures s != [] && s[0] != SPACE ==> Split(s)[0] != []
    decreases |s|
  {
    var w := Word(s);
    if w < |s| {
      var rest := s[w + Run(s[w..])..];
      SplitIsTokens(rest);
      assert rest == [] || rest[0] != SPACE;
      if rest == [] { assert Split(rest) == [[]]; }
    } else {
      assert s[..w] == s;
    }
  }

  lemma {:induction false} CollapseWord(word: bytes, rest: bytes)
    requires NoSpace(word)
    ensures Collapse(word + rest) == word + Collapse(rest)
  {
    if word == [] {
      assert word + rest == rest;
    } else {
      var s := word + rest;
      assert s[1..] == word[1..] + rest;
      CollapseWord(word[1..], rest);
      assert word == [word[0]] + word[1..];
      Associates([word[0]], word[1..], Collapse(rest));
    }
  }

  lemma {:induction false} CollapseRun(s: bytes)
    requires s != [] && s[0] == SPACE
    ensures Collapse(s) == [SPACE] + Collapse(s[Run(s)..])
  {
    if |s| > 1 && s[1] == SPACE {
      CollapseRun(s[1..]);
      assert s[1..][Run(s[1..])..] == s[Run(s)..];
    }
  }

  lemma SplitMore(s: bytes) returns (w: nat, run: bytes, rest: bytes)
    requires Word(s) < |s|
    ensures w == Word(s) && run == s[w..] && run != [] && run[0] == SPACE && rest == run[Run(run)..] && |rest| < |s|
    ensures NoSpace(s[..w]) && s == s[..w] + run
    ensures Split(s) == [s[..w]] + Split(rest)
  {
    hide Word, Run, NoSpace, Split;
    w := Word(s);
    run := s[w..];
    assert run[0] == s[w] == SPACE;
    RunStarts(run);
    var n := Run(run);
    rest := run[n..];
    assert rest == s[w + n..];
    SplitIs(s, w, n);
  }

  lemma RunStarts(s: bytes)
    requires s != [] && s[0] == SPACE
    ensures 0 < Run(s) <= |s|
  {
  }

  lemma SplitIs(s: bytes, w: nat, n: nat)
    requires w == Word(s) < |s| && n == Run(s[w..])
    ensures n <= |s| - w && Split(s) == [s[..w]] + Split(s[w + n..])
  {
    hide Word, Run, NoSpace;
  }

  lemma JoinMore(arg: bytes, args: seq<bytes>)
    requires args != []
    ensures Join([arg] + args) == arg + [SPACE] + Join(args)
  {
    assert ([arg] + args)[1..] == args;
  }

  /** Splitting and joining shortens every run of spaces to one. */
  lemma {:induction false} JoinSplit(s: bytes)
    ensures Join(Split(s)) == Collapse(s)
    decreases |s|
  {
    if Word(s) == |s| {
      assert s[..|s|] == s && s + [] == s;
      CollapseWord(s, []);
    } else {
      hide Split, Join, Collapse, Word, Run;
      var w, run, rest := SplitMore(s);
      CollapseWord(s[..w], run);
      CollapseRun(run);
      JoinSplit(rest);
      JoinMore(s[..w], Split(rest));
      Associates(s[..w], [SPACE], Collapse(rest));
    }
  }

  lemma {:induction false} WordOf(word: bytes, rest: bytes)
    requires NoSpace(word) && (rest == [] || rest[0] == SPACE)
    ensures Word(word + rest) == |word|
  {
    if word == [] {
      assert word + rest == rest;
    } else {
      assert (word + rest)[1..] == word[1..] + rest;
      WordOf(word[1..], rest);
    }
  }

  /** Joining tokens and splitting gives the tokens back. */
  lemma {:induction false} SplitJoin(args: seq<bytes>)
    requires Tokens(args)
    ensures Split(Join(args)) == args
    decreases |args|
  {
    if |args| == 1 {
      WordOf(args[0], []);
      assert args[0] + [] == args[0];
    } else {
      var tail := Join(args[1..]);
      var s, rest := Join(args), [SPACE] + tail;
      Associates(args[0], [SPACE], tail);
      WordOf(args[0], rest);
      assert s[..|args[0]|] == args[0] && s[|args[0]|..] == rest;
      TokensTail(args);
      assert rest[1..] == tail && Run(rest) == 1 + Run(tail) && Run(tail) == 0;
      assert s[|args[0]| + 1..] == tail;
      SplitJoin(args[1..]);
    }
  }

  lemma TokensTail(args: seq<bytes>)
    requires Tokens(args) && |args| > 1
    ensures Tokens(args[1..])
    ensures Join(args[1..]) == [] || Join(args[1..])[0] != SPACE
  {
    var tail := args[1..];
    assert forall i :: 0 <= i < |tail| ==> tail[i] == args[i + 1];
    if |tail| > 1 { assert tail[0] != []; }
  }

  /** A list of arguments survives being joined and split again exactly when
      none holds a space and only the first and last may be empty. */
  lemma SplitJoinIff(args: seq<bytes>)
    requires args != []
    ensures Split(Join(args)) == args <==> Tokens(args)
  {
    if Tokens(args) { SplitJoin(args); }
    SplitIsTokens(Join(args));
  }

  /** The normalised text splits into the same arguments and is its own normal form. */
  lemma NormalForm(s: bytes)
    ensures Split(Collapse(s)) == Split(s) && Collapse(Collapse(s)) == Collapse(s)
  {
    JoinSplit(s);
    SplitIsTokens(s);
    SplitJoin(Split(s));
    JoinSplit(Collapse(s));
  }

  /** A message set, read back and set again. */
  method Renormalise(event: CommandEvent, message: bytes) returns (full: bytes)
    modifies event
    ensures full == Collapse(message) && event.Valid() && event.args == Split(message)
  {
    event.SetCommandMessage(message);
    full := event.GetFullCommand();
    JoinSplit(message);
    NormalForm(message);
    event.SetCommandMessage(full);
  }

  // ----- the two functions by the bytes of the text -----

  predicate HasNoBlank(s: bytes) { forall i :: 0 <= i < |s| ==> s[i] != 32 }

  function Blanks(n: nat): (s: bytes)
    ensures |s| == n
  {
    seq(n, _ => 32)
  }

  lemma {:induction false} RunOf(n: nat, rest: bytes)
    requires rest == [] || rest[0] != 32
    ensures Run(Blanks(n) + rest) == n
  {
    var s := Blanks(n) + rest;
    if n == 0 {
      assert s == rest;
    } else {
      assert s[1..] == Blanks(n - 1) + rest;
      RunOf(n - 1, rest);
    }
  }

  /** A text without blanks is one argument, the empty text too; blanks end an
      argument, however many there are, and one that starts or ends a text
      leaves an empty argument there. */
  lemma SplitsAtBlanks(word: bytes, n: nat, rest: bytes)
    requires HasNoBlank(word) && (rest == [] || rest[0] != 32)
    ensures n == 0 && rest == [] ==> Split(word + Blanks(n) + rest) == [word]
    ensures n > 0 ==> Split(word + Blanks(n) + rest) == [word] + Split(rest)
  {
    var tail := Blanks(n) + rest;
    var s := word + Blanks(n) + rest;
    assert s == word + tail;
    if n > 0 {
      assert tail[0] == SPACE;
      WordOf(word, tail);
      RunOf(n, rest);
      hide Word, Run, Blanks, NoSpace, HasNoBlank, Split;
      assert s[|word|..] == tail && s[..|word|] == word;
      assert s[|word| + n..] == rest;
      SplitIs(s, |word|, n);
    } else if rest == [] {
      assert tail == [];
      WordOf(word, []);
      assert s == word && word + [] == word;
    }
  }

  /** Joining puts one blank between two arguments. */
  lemma JoinsWithBlanks(arg: bytes, args: seq<bytes>)
    ensures Join([arg]) == arg
    ensures args != [] ==> Join([arg] + args) == arg + [32] + Join(args)
  {
    if args != [] { JoinMore(arg, args); }
  }

  /** Collapsing leaves one blank of a run. */
  lemma CollapsesBlanks(word: bytes, n: nat, rest: bytes)
    requires HasNoBlank(word) && n > 0 && (rest == [] || rest[0] != 32)
    ensures Collapse(word + Blanks(n) + rest) == word + [32] + Collapse(rest)
    ensures Collapse(word) == word
  {
    var tail := Blanks(n) + rest;
    assert word + Blanks(n) + rest == word + tail;
    CollapseWord(word, tail);
    RunOf(n, rest);
    CollapseRun(tail);
    assert tail[n..] == rest;
    CollapseWord(word, []);
    assert word + [] == word;
    Associates(word, [32], Collapse(rest));
  }
}
