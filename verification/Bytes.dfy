/** Bytes and byte strings: what a Lua string, a `std::string` and a
    `std::vector<std::uint8_t>` hold. */
module Bytes {
  type byte = x: int | 0 <= x < 256
  type bytes = seq<byte>

  /** What is left of `s` after `i` bytes and then `a` are dropped. */
  lemma DropPrefix(s: bytes, i: nat, a: bytes, b: bytes)
    requires i <= |s| && s[i..] == a + b
    ensures i + |a| <= |s| && s[i + |a|..] == b
    ensures a != [] ==> s[i] == a[0]
  {
    assert s[i + |a|..] == s[i..][|a|..];
  }

  /** Taking `len` more bytes after the first `n`. */
  lemma TakeMore(s: bytes, n: nat, len: nat)
    requires n + len <= |s|
    ensures s[..n + len] == s[..n] + s[n..][..len]
  {
  }

  lemma Associates(a: bytes, b: bytes, c: bytes)
    ensures (a + b) + c == a + (b + c)
  {
  }

  /** Dropping `m` bytes of `a` and then `n` more of what follows. */
  lemma DropTwice(a: bytes, b: bytes, m: nat, n: nat)
    requires m <= |a| && m + n <= |a| + |b|
    ensures (a + b)[m..] == a[m..] + b
    ensures (a + b)[m + n..] == (a[m..] + b)[n..]
  {
  }
}
