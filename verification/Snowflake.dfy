/** Snowflake ids: a bit-packed time, worker and global sequence number. Words
    are numbers; the shifts wrap at 64 bits. */
module Snowflake {
  const EPOCH: int := 1609187816000

  /** Bitwise or. */
  function BitOr(a: nat, b: nat): nat
    decreases a + b
  {
    if a == 0 && b == 0 then 0
    else 2 * BitOr(a / 2, b / 2) + (if a % 2 == 1 || b % 2 == 1 then 1 else 0)
  }

  /** `x << 41` on 64 bits, read as an unsigned number. */
  function ShiftBy41(x: int): nat { x * 0x200_0000_0000 % 0x1_0000_0000_0000_0000 }

  /** `(sequence + 1) & 0b111111111111`. */
  function NextSequence(sequence: nat): (n: nat)
    ensures n < 0x1000
  {
    (sequence + 1) % 0x1000
  }

  /** Bitwise or of two bits each. */
  function TwoBits(u: nat, v: nat): nat {
    if u == 3 || v == 3 || u + v == 3 then 3 else if u < v then v else u
  }

  /** The packed id, when the clock returned `ms`. */
  function Id(ms: int, worker: nat, sequence: nat): nat {
    BitOr(BitOr(ShiftBy41(ms - EPOCH), worker * 0x400), sequence)
  }

  /** The global `sequence`. */
  class Generator {
    var sequence: nat

    constructor ()
      ensures sequence == 0
    {
      sequence := 0;
    }

    /** `CreateSnowflake`, given what the clock returns: 23 bits of the time since
        28 December 2020, 20:36:56 UTC, then the worker and the sequence, which
        share two bits. */
    method CreateSnowflake(ms: int, worker: nat) returns (id: nat)
      requires worker < 0x1_0000
      modifies this
      ensures sequence == NextSequence(old(sequence)) && id == Id(ms, worker, sequence)
      ensures sequence == (old(sequence) + 1) % 4096
      ensures id / 0x200_0000_0000 == (ms - 1609187816000) % 0x80_0000
      ensures id / 0x1000 % 0x2000_0000 == worker / 4
      ensures id / 0x400 % 4 == TwoBits(worker % 4, sequence / 0x400) && id % 0x400 == sequence % 0x400
    {
      IdFields(ms, worker, (sequence + 1) % 0x1000);
      sequence := (sequence + 1) % 0x1000;
      id := BitOr(BitOr(ShiftBy41(ms - EPOCH), worker * 0x400), sequence);
    }
  }

  // ----- packing -----

  /** `x << k` without a limit on the width. */
  function Shl(x: nat, k: nat): nat { if k == 0 then x else 2 * Shl(x, k - 1) }

  lemma {:induction false} ShlTwice(x: nat, a: nat, b: nat)
    ensures Shl(x, a + b) == Shl(Shl(x, a), b)
  {
    if b > 0 { ShlTwice(x, a, b - 1); }
  }

  lemma Shl5(x: nat)
    ensures Shl(x, 5) == 32 * x
  {
    assert Shl(x, 1) == 2 * x;
    assert Shl(x, 2) == 4 * x;
    assert Shl(x, 3) == 8 * x;
    assert Shl(x, 4) == 16 * x;
  }

  lemma Shl10(x: nat)
    ensures Shl(x, 10) == 0x400 * x
  {
    Shl5(x);
    Shl5(32 * x);
    ShlTwice(x, 5, 5);
  }

  lemma Shl12(x: nat)
    ensures Shl(x, 12) == 0x1000 * x
  {
    Shl10(x);
    assert Shl(x, 11) == 2 * Shl(x, 10);
    assert Shl(x, 12) == 2 * Shl(x, 11);
  }

  lemma Shl41(x: nat)
    ensures Shl(x, 41) == 0x200_0000_0000 * x
  {
    Shl10(x);
    Shl10(0x400 * x);
    ShlTwice(x, 10, 10);
    Shl10(0x10_0000 * x);
    ShlTwice(x, 20, 10);
    Shl10(0x4000_0000 * x);
    ShlTwice(x, 30, 10);
  }

  /** Bit number `k` of `x`. */
  predicate Bit(x: nat, k: nat) { if k == 0 then x % 2 == 1 else Bit(x / 2, k - 1) }

  /** A bit of an or is set exactly when it is set on one side. */
  lemma {:induction false} OrHasBit(a: nat, b: nat, k: nat)
    ensures Bit(BitOr(a, b), k) <==> Bit(a, k) || Bit(b, k)
    decreases k
  {
    OrHalves(a, b);
    hide BitOr;
    if k > 0 {
      OrHasBit(a / 2, b / 2, k - 1);
      assert BitOr(a, b) / 2 == BitOr(a / 2, b / 2);
    }
  }

  lemma {:induction false} OrZero(a: nat)
    ensures BitOr(a, 0) == a && BitOr(0, a) == a
  {
    if a > 0 { OrZero(a / 2); }
  }

  lemma {:induction false} OrSame(a: nat)
    ensures BitOr(a, a) == a
  {
    if a > 0 { OrSame(a / 2); }
  }

  lemma OrHalves(a: nat, b: nat)
    ensures BitOr(a, b) == 2 * BitOr(a / 2, b / 2) + (if a % 2 == 1 || b % 2 == 1 then 1 else 0)
  {
  }

  /** One more low bit on both sides. */
  lemma OrStep(y: nat, z: nat, u: nat, c: nat, d: nat)
    requires BitOr(y + c / 2, z + d / 2) == u + BitOr(c / 2, d / 2)
    ensures BitOr(2 * y + c, 2 * z + d) == 2 * u + BitOr(c, d)
  {
    hide BitOr;
    OrHalves(2 * y + c, 2 * z + d);
    OrHalves(c, d);
    assert (2 * y + c) / 2 == y + c / 2 && (2 * z + d) / 2 == z + d / 2;
  }

  /** The high bits and the low bits are combined separately. */
  lemma {:induction false} OrSplit(y: nat, z: nat, c: nat, d: nat, k: nat)
    requires c < Shl(1, k) && d < Shl(1, k)
    ensures BitOr(Shl(y, k) + c, Shl(z, k) + d) == Shl(BitOr(y, z), k) + BitOr(c, d)
    decreases k
  {
    if k == 0 {
      OrZero(0);
    } else {
      hide BitOr;
      OrSplit(y, z, c / 2, d / 2, k - 1);
      OrStep(Shl(y, k - 1), Shl(z, k - 1), Shl(BitOr(y, z), k - 1), c, d);
    }
  }

  /** A number with only low bits leaves the high bits of the other alone. */
  lemma OrLow(y: nat, c: nat, d: nat, k: nat)
    requires c < Shl(1, k) && d < Shl(1, k)
    ensures BitOr(Shl(y, k) + c, d) == Shl(y, k) + BitOr(c, d)
  {
    hide BitOr;
    OrSplit(y, 0, c, d, k);
    OrZero(y);
    ShlZero(k);
  }

  lemma {:induction false} ShlZero(k: nat)
    ensures Shl(0, k) == 0
  {
    if k > 0 { ShlZero(k - 1); }
  }

  /** The low 23 bits of the time since the epoch. */
  function TimeBits(ms: int): (t: nat)
    ensures t < 0x80_0000
  {
    (ms - EPOCH) % 0x80_0000
  }

  lemma ShiftKeepsLowBits(ms: int)
    ensures ShiftBy41(ms - EPOCH) == TimeBits(ms) * 0x200_0000_0000
  {
    var x := ms - EPOCH;
    var q, r := x / 0x80_0000, x % 0x80_0000;
    assert x * 0x200_0000_0000 == q * 0x1_0000_0000_0000_0000 + r * 0x200_0000_0000;
  }

  lemma SameTimeBits(ms: int, ms': int)
    ensures TimeBits(ms) == TimeBits(ms') <==> ms % 0x80_0000 == ms' % 0x80_0000
  {
    var e := EPOCH % 0x80_0000;
    var r, r' := ms % 0x80_0000, ms' % 0x80_0000;
    assert TimeBits(ms) == if r >= e then r - e else r - e + 0x80_0000;
    assert TimeBits(ms') == if r' >= e then r' - e else r' - e + 0x80_0000;
  }

  /** Time and worker never overlap; the worker's two low bits share their
      place with the two high bits of the sequence number. */
  lemma IdIs(ms: int, worker: nat, sequence: nat)
    requires worker < 0x1_0000 && sequence < 0x1000
    ensures Id(ms, worker, sequence)
      == TimeBits(ms) * 0x200_0000_0000 + worker / 4 * 0x1000 + BitOr(worker % 4 * 0x400, sequence)
  {
    hide BitOr, TimeBits, ShiftBy41, Shl;
    var t := TimeBits(ms);
    var high := t * 0x200_0000_0000;
    ShiftKeepsLowBits(ms);
    Shl41(1);
    Shl41(t);
    OrLow(t, 0, worker * 0x400, 41);
    OrZero(worker * 0x400);
    var y := t * 0x2000_0000 + worker / 4;
    assert high + worker * 0x400 == y * 0x1000 + worker % 4 * 0x400;
    Shl12(1);
    Shl12(y);
    OrLow(y, worker % 4 * 0x400, sequence, 12);
  }

  /** What an id shows of the worker's low bits and the two high bits of the sequence. */
  function Mixed(worker: nat, sequence: nat): nat { BitOr(worker % 4, sequence / 0x400) }

  /** On two bits. */
  lemma OrBits(u: nat, v: nat)
    requires u < 4 && v < 4
    ensures BitOr(u, v) == TwoBits(u, v)
  {
    OrHalves(u, v);
    OrHalves(u / 2, v / 2);
    OrZero(0);
    assert u / 2 / 2 == 0 && v / 2 / 2 == 0;
  }

  lemma LowBits(worker: nat, sequence: nat)
    requires sequence < 0x1000
    ensures BitOr(worker % 4 * 0x400, sequence) == Mixed(worker, sequence) * 0x400 + sequence % 0x400
    ensures Mixed(worker, sequence) < 4
  {
    var u, h, low := worker % 4, sequence / 0x400, sequence % 0x400;
    MixedIs(worker, sequence);
    OrBits(u, h);
    hide BitOr, Mixed;
    OrAbove10(u, h, low);
    assert sequence == h * 0x400 + low;
  }

  lemma OrAbove10(u: nat, h: nat, low: nat)
    requires low < 0x400
    ensures BitOr(u * 0x400, h * 0x400 + low) == BitOr(u, h) * 0x400 + low
  {
    hide BitOr, Shl;
    Shl10(1);
    Shl10(u);
    Shl10(h);
    Shl10(BitOr(u, h));
    OrSplit(u, h, 0, low, 10);
    OrZero(low);
  }

  lemma MixedIs(worker: nat, sequence: nat)
    ensures Mixed(worker, sequence) == BitOr(worker % 4, sequence / 0x400)
  {
  }

  /** The fields of an id, where the shifts put them. */
  lemma IdFields(ms: int, worker: nat, sequence: nat)
    requires worker < 0x1_0000 && sequence < 0x1000
    ensures var id := Id(ms, worker, sequence);
      && id / 0x200_0000_0000 == (ms - 1609187816000) % 0x80_0000
      && id / 0x1000 % 0x2000_0000 == worker / 4
      && id / 0x400 % 4 == TwoBits(worker % 4, sequence / 0x400) && id % 0x400 == sequence % 0x400
  {
    assert TimeBits(ms) == (ms - 1609187816000) % 0x80_0000;
    OrBits(worker % 4, sequence / 0x400);
    assert Mixed(worker, sequence) == TwoBits(worker % 4, sequence / 0x400);
    hide Id, BitOr, TimeBits, Mixed, TwoBits;
    IdIs(ms, worker, sequence);
    LowBits(worker, sequence);
    FieldsOf(TimeBits(ms), worker / 4, Mixed(worker, sequence), sequence % 0x400);
  }

  lemma FieldsOf(t: nat, w: nat, m: nat, l: nat)
    requires w < 0x4000 && m < 4 && l < 0x400
    ensures var id := t * 0x200_0000_0000 + w * 0x1000 + (m * 0x400 + l);
      && id / 0x200_0000_0000 == t && id / 0x1000 % 0x2000_0000 == w && id / 0x400 % 4 == m && id % 0x400 == l
  {
    var id := t * 0x200_0000_0000 + w * 0x1000 + (m * 0x400 + l);
    assert id / 0x1000 == t * 0x2000_0000 + w;
    assert id / 0x400 == 4 * (t * 0x2000_0000 + w) + m;
  }

  /** An id determines the low 23 bits of the time, the low 10 bits of the
      sequence number, and its high bits as far as the worker does not cover
      them. For a worker divisible by 4 that is the whole sequence number. */
  lemma SameIdIff(ms: int, ms': int, worker: nat, a: nat, b: nat)
    requires worker < 0x1_0000 && a < 0x1000 && b < 0x1000
    ensures Id(ms, worker, a) == Id(ms', worker, b) <==>
      ms % 0x80_0000 == ms' % 0x80_0000 && a % 0x400 == b % 0x400 && Mixed(worker, a) == Mixed(worker, b)
    ensures worker % 4 == 0 ==>
      (Id(ms, worker, a) == Id(ms', worker, b) <==> ms % 0x80_0000 == ms' % 0x80_0000 && a == b)
  {
    assert worker % 4 == 0 ==> Mixed(worker, a) == a / 0x400 && Mixed(worker, b) == b / 0x400 by {
      OrZero(a / 0x400);
      OrZero(b / 0x400);
    }
    hide Id, BitOr, TimeBits, Mixed;
    IdIs(ms, worker, a);
    IdIs(ms', worker, b);
    LowBits(worker, a);
    LowBits(worker, b);
    SameTimeBits(ms, ms');
    SameFieldsIff(worker / 4, TimeBits(ms), Mixed(worker, a), a % 0x400, TimeBits(ms'), Mixed(worker, b), b % 0x400);
  }

  /** The fields of an id do not overlap. */
  lemma SameFieldsIff(w: nat, t: nat, m: nat, l: nat, t': nat, m': nat, l': nat)
    requires w < 0x4000 && m < 4 && m' < 4 && l < 0x400 && l' < 0x400
    ensures t * 0x200_0000_0000 + w * 0x1000 + (m * 0x400 + l) == t' * 0x200_0000_0000 + w * 0x1000 + (m' * 0x400 + l')
      <==> t == t' && m == m' && l == l'
  {
  }

  /** For any other worker two different sequence numbers give the same id. */
  lemma WorkerHidesSequence(ms: int, worker: nat)
    requires worker < 0x1_0000 && worker % 4 != 0
    ensures var b := worker % 4 * 0x400;
      0 < b < 0x1000 && Id(ms, worker, 0) == Id(ms, worker, b)
  {
    hide Id, BitOr, TimeBits;
    var b := worker % 4 * 0x400;
    IdIs(ms, worker, 0);
    IdIs(ms, worker, b);
    OrZero(b);
    OrSame(b);
  }

  /** At one time, different sequence numbers always give different ids exactly
      for workers divisible by 4. */
  lemma DistinctIff(worker: nat)
    requires worker < 0x1_0000
    ensures worker % 4 == 0 <==>
      forall ms, a, b :: 0 <= a < b < 0x1000 ==> Id(ms, worker, a) != Id(ms, worker, b)
  {
    hide Id;
    if worker % 4 == 0 {
      forall ms, a, b | 0 <= a < b < 0x1000 ensures Id(ms, worker, a) != Id(ms, worker, b) {
        SameIdIff(ms, ms, worker, a, b);
      }
    } else {
      WorkerHidesSequence(0, worker);
    }
  }

  // ----- a run of calls -----

  /** The sequence number after `n` calls. */
  function SequenceAfter(sequence: nat, n: nat): nat {
    if n == 0 then sequence else NextSequence(SequenceAfter(sequence, n - 1))
  }

  lemma {:induction false} SequenceCounts(s: nat, n: nat)
    requires s < 0x1000
    ensures SequenceAfter(s, n) == (s + n) % 0x1000 < 0x1000
  {
    if n > 0 { SequenceCounts(s, n - 1); }
  }

  lemma SameSequenceIff(s: nat, i: nat, j: nat)
    requires s < 0x1000
    ensures SequenceAfter(s, i) == SequenceAfter(s, j) <==> i % 0x1000 == j % 0x1000
  {
    hide SequenceAfter;
    SequenceCounts(s, i);
    SequenceCounts(s, j);
    var r, r' := i % 0x1000, j % 0x1000;
    assert (s + i) % 0x1000 == if s + r < 0x1000 then s + r else s + r - 0x1000;
    assert (s + j) % 0x1000 == if s + r' < 0x1000 then s + r' else s + r' - 0x1000;
  }

  lemma NextCalls(i: nat, j: nat)
    ensures (i + 1) % 0x1000 == (j + 1) % 0x1000 <==> i % 0x1000 == j % 0x1000
  {
    var r, r' := i % 0x1000, j % 0x1000;
    assert (i + 1) % 0x1000 == if r + 1 < 0x1000 then r + 1 else 0;
    assert (j + 1) % 0x1000 == if r' + 1 < 0x1000 then r' + 1 else 0;
  }

  /** The id of call number `k` of a run, counted from 0, when the clock returned `clock[k]`. */
  function IdOf(sequence: nat, worker: nat, clock: seq<int>, k: nat): nat
    requires k < |clock|
  {
    Id(clock[k], worker, SequenceAfter(sequence, k + 1))
  }

  /** Two ids of a run are equal exactly when their times agree modulo 2^23,
      their sequence numbers modulo 2^10, and the bits mixed with the worker's.
      For a worker divisible by 4 the call numbers agree modulo 2^12. */
  lemma RepeatsIff(s: nat, worker: nat, clock: seq<int>, i: nat, j: nat)
    requires s < 0x1000 && worker < 0x1_0000 && i < |clock| && j < |clock|
    ensures var a, b := (s + i + 1) % 0x1000, (s + j + 1) % 0x1000;
      IdOf(s, worker, clock, i) == IdOf(s, worker, clock, j) <==>
        clock[i] % 0x80_0000 == clock[j] % 0x80_0000 && a % 0x400 == b % 0x400 && Mixed(worker, a) == Mixed(worker, b)
    ensures worker % 4 == 0 ==>
      (IdOf(s, worker, clock, i) == IdOf(s, worker, clock, j) <==>
        clock[i] % 0x80_0000 == clock[j] % 0x80_0000 && i % 0x1000 == j % 0x1000)
  {
    hide Id, SequenceAfter, Mixed;
    var a, b := SequenceAfter(s, i + 1), SequenceAfter(s, j + 1);
    SequenceCounts(s, i + 1);
    SequenceCounts(s, j + 1);
    SameIdIff(clock[i], clock[j], worker, a, b);
    assert a == b <==> i % 0x1000 == j % 0x1000 by {
      SameSequenceIff(s, i + 1, j + 1);
      NextCalls(i, j);
    }
  }

  /** How many ids in a row are distinct for a worker. */
  function Window(worker: nat): nat {
    if worker % 4 == 0 then 0x1000 else if worker % 4 == 2 then 0x800 else 0x400
  }

  /** The two high bits `k` blocks of 1024 later, inside the window. */
  lemma MixedMoves(worker: nat, h: nat, k: nat)
    requires h < 4 && 0 < k && k * 0x400 < Window(worker)
    ensures BitOr(worker % 4, h) != BitOr(worker % 4, (h + k) % 4)
  {
    OrBits(worker % 4, h);
    OrBits(worker % 4, (h + k) % 4);
    hide BitOr;
    assert k < 4;
    assert (h + k) % 4 == if h + k < 4 then h + k else h + k - 4;
  }

  /** The fields of a sequence number. */
  lemma NumberFields(n: nat)
    ensures n % 0x1000 % 0x400 == n % 0x400 && n % 0x1000 / 0x400 == n / 0x400 % 4
  {
    var q, r := n / 0x1000, n % 0x1000;
    assert n == q * 0x1000 + r;
    assert n / 0x400 == q * 4 + r / 0x400;
  }

  /** Sequence numbers that are not that far apart differ where the id shows it. */
  lemma NearNumbersDiffer(worker: nat, n: nat, m: nat)
    requires n < m < n + Window(worker)
    ensures var a, b := n % 0x1000, m % 0x1000;
      a % 0x400 != b % 0x400 || Mixed(worker, a) != Mixed(worker, b)
  {
    NumberFields(n);
    NumberFields(m);
    hide BitOr;
    if n % 0x400 == m % 0x400 {
      var h, k := n / 0x400, m / 0x400 - n / 0x400;
      assert m - n == k * 0x400;
      assert (h % 4 + k) % 4 == (h + k) % 4;
      MixedMoves(worker, h % 4, k);
    }
  }

  /** Any `Window(worker)` ids in a row are distinct, whatever the clock does:
      4096 for a worker divisible by 4. */
  lemma WindowIsDistinct(s: nat, worker: nat, clock: seq<int>, i: nat, j: nat)
    requires s < 0x1000 && worker < 0x1_0000
    requires i < j < |clock| && j < i + Window(worker)
    ensures IdOf(s, worker, clock, i) != IdOf(s, worker, clock, j)
  {
    hide IdOf, Mixed;
    RepeatsIff(s, worker, clock, i, j);
    NearNumbersDiffer(worker, s + i + 1, s + j + 1);
  }

  /** The ids that call `Window(worker)` repeats: for an odd worker not every one. */
  lemma WindowIsSharp(s: nat, worker: nat, clock: seq<int>)
    requires s < 0x1000 && worker < 0x1_0000 && (worker % 4 == 1 ==> (s + 1) / 0x400 % 2 == 0)
    requires |clock| > Window(worker) && clock[0] == clock[Window(worker)]
    ensures IdOf(s, worker, clock, 0) == IdOf(s, worker, clock, Window(worker))
  {
    hide IdOf, BitOr, Mixed;
    var w := Window(worker);
    RepeatsIff(s, worker, clock, 0, w);
    NumberFields(s + 1);
    NumberFields(s + 1 + w);
    MixedIs(worker, (s + 1) % 0x1000);
    MixedIs(worker, (s + 1 + w) % 0x1000);
    MixedReturns(worker, (s + 1) / 0x400);
    assert (s + 1 + w) / 0x400 == (s + 1) / 0x400 + w / 0x400;
  }

  lemma MixedReturns(worker: nat, h: nat)
    requires worker % 4 == 1 ==> h % 2 == 0
    ensures BitOr(worker % 4, h % 4) == BitOr(worker % 4, (h + Window(worker) / 0x400) % 4)
  {
    hide BitOr;
    OrBits(worker % 4, h % 4);
    OrBits(worker % 4, (h + Window(worker) / 0x400) % 4);
  }

  /** The number of ids in a row that are sure to be distinct is exactly the window. */
  lemma WindowIsExact(worker: nat, n: nat)
    requires worker < 0x1_0000
    ensures n <= Window(worker) <==>
      forall s, clock, i, j :: s < 0x1000 && 0 <= i < j < |clock| && j < i + n ==>
        IdOf(s, worker, clock, i) != IdOf(s, worker, clock, j)
  {
    hide IdOf;
    if n <= Window(worker) {
      forall s: nat, clock, i: nat, j: nat | s < 0x1000 && 0 <= i < j < |clock| && j < i + n
        ensures IdOf(s, worker, clock, i) != IdOf(s, worker, clock, j)
      {
        WindowIsDistinct(s, worker, clock, i, j);
      }
    } else {
      var w := Window(worker);
      var clock := seq(w + 1, _ => 0);
      WindowIsSharp(0, worker, clock);
      assert 0 < w < |clock| && w < 0 + n;
    }
  }

  /** Calls in a row: what the generator returns are the ids above. */
  method CreateInTurn(g: Generator, worker: nat, clock: seq<int>) returns (ids: seq<nat>)
    requires worker < 0x1_0000 && g.sequence < 0x1000
    modifies g
    ensures g.sequence == SequenceAfter(old(g.sequence), |clock|) < 0x1000
    ensures |ids| == |clock| && forall k :: 0 <= k < |ids| ==> ids[k] == IdOf(old(g.sequence), worker, clock, k)
    ensures worker % 4 == 0 ==> forall i, j :: 0 <= i < |ids| && 0 <= j < |ids| ==>
      (ids[i] == ids[j] <==> clock[i] % 0x80_0000 == clock[j] % 0x80_0000 && i % 0x1000 == j % 0x1000)
    ensures forall i, j :: 0 <= i < j < |ids| && j < i + Window(worker) ==> ids[i] != ids[j]
  {
    hide Id;
    ids := [];
    while |ids| < |clock|
      invariant |ids| <= |clock| && g.sequence == SequenceAfter(old(g.sequence), |ids|) < 0x1000
      invariant forall k :: 0 <= k < |ids| ==> ids[k] == IdOf(old(g.sequence), worker, clock, k)
    {
      var id := g.CreateSnowflake(clock[|ids|], worker);
      ids := ids + [id];
    }
    hide IdOf, Mixed, Window;
    if worker % 4 == 0 {
      forall i, j | 0 <= i < |ids| && 0 <= j < |ids|
        ensures ids[i] == ids[j] <==> clock[i] % 0x80_0000 == clock[j] % 0x80_0000 && i % 0x1000 == j % 0x1000
      {
        RepeatsIff(old(g.sequence), worker, clock, i, j);
      }
    }
    forall i, j | 0 <= i < j < |ids| && j < i + Window(worker) ensures ids[i] != ids[j] {
      WindowIsDistinct(old(g.sequence), worker, clock, i, j);
    }
  }
}
