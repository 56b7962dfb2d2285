/** src/crc32.c: the 31-bit hash behind the symbol table.  All its values stay
    below 2^31, so 32 bits stand for the C code's longs. */
module Crc {
  type Byte = bv8

  const POLY: bv32 := 0x48000000
  const LIMIT: bv32 := 0x80000000

  /** What bit `j` of the index adds to a table entry. */
  function Term(i: bv32, mask: bv32, poly: bv32): bv32 {
    if i & mask != 0 then poly else 0
  }

  /** The entry for a seven-bit index: bit j contributes POLY >> j. */
  function Entry(i: bv32): bv32 {
    0 ^ Term(i, 64, 0x01200000) ^ Term(i, 32, 0x02400000) ^ Term(i, 16, 0x04800000) ^ Term(i, 8, 0x09000000)
    ^ Term(i, 4, 0x12000000) ^ Term(i, 2, 0x24000000) ^ Term(i, 1, 0x48000000)
  }

  /** The bits from 6 down to `j` alone: what the inner loop of crcinit has summed. */
  function Partial(i: bv32, j: nat): bv32
    requires j <= 7
    decreases 7 - j
  {
    if j == 7 then 0 else Partial(i, j + 1) ^ Term(i, (1 as bv32) << j, POLY >> j)
  }

  function Mask(j: nat): bv32
    requires j < 7
  {
    if j == 0 then 1 else if j == 1 then 2 else if j == 2 then 4 else if j == 3 then 8
    else if j == 4 then 16 else if j == 5 then 32 else 64
  }

  function Shifted(j: nat): bv32
    requires j < 7
  {
    if j == 0 then 0x48000000 else if j == 1 then 0x24000000 else if j == 2 then 0x12000000 else if j
            == 3 then 0x09000000
    else if j == 4 then 0x04800000 else if j == 5 then 0x02400000 else 0x01200000
  }

  lemma ShiftsAre(j: nat)
    requires j < 7
    ensures (1 as bv32) << j == Mask(j) && POLY >> j == Shifted(j)
  {
    if j == 0 {} else if j == 1 {} else if j == 2 {} else if j == 3 {} else if j == 4 {} else if j == 5 {} else {}
  }

  lemma PartialNext(i: bv32, j: nat)
    requires j < 7
    ensures Partial(i, j) == Partial(i, j + 1) ^ Term(i, Mask(j), Shifted(j))
  {
    hide Term;
    ShiftsAre(j);
  }

  lemma PartialIsEntry(i: bv32)
    ensures Partial(i, 0) == Entry(i)
  {
    assert Partial(i, 7) == 0;
    hide Partial, Term;
    PartialNext(i, 6);
    PartialNext(i, 5);
    PartialNext(i, 4);
    PartialNext(i, 3);
    PartialNext(i, 2);
    PartialNext(i, 1);
    PartialNext(i, 0);
  }

  // The bit operations under names, so that the lemmas can hide the bits.
  function Plus(x: bv32, y: bv32): bv32 { x ^ y }

  function PlusByte(x: Byte, y: Byte): Byte { x ^ y }

  function Wide(b: Byte): bv32 { b as bv32 }

  function Down7(x: bv32): bv32 { x >> 7 }

  function Index(key: bv32, b: Byte): bv32 { Plus(key, Wide(b)) & 0x7f }

  /** One byte of crc32n. */
  function Step(key: bv32, b: Byte): bv32 {
    Plus(Down7(key), Entry(Index(key, b)))
  }

  function Hash(s: seq<Byte>): (key: bv32)
    ensures key < LIMIT
  {
    if s == [] then 0 else StepBound(Hash(s[..|s| - 1]), s[|s| - 1]); Step(Hash(s[..|s| - 1]), s[|s| - 1])
  }

  lemma StepBound(key: bv32, b: Byte)
    ensures Step(key, b) < LIMIT
  {
    EntryBound(Index(key, b));
    hide Entry, Index;
  }

  lemma EntryBound(i: bv32)
    ensures Entry(i) < LIMIT
  {
  }

  class CrcState {
    const table: array<bv32>
    var done: bool

    ghost predicate Valid()
      reads this, table
    {
      table.Length == 128 && (done ==> forall i: nat :: i < 128 ==> table[i] == Entry(i as bv32))
    }

    constructor ()
      ensures Valid() && !done && fresh(table)
    {
      table := new bv32[128];
      done := false;
    }

    /** crcinit */
    method Init()
      requires Valid()
      modifies this, table
      ensures Valid() && done
    {
      if done {
        return;
      }
      for i := 0 to 128
        invariant forall k: nat :: k < i ==> table[k] == Entry(k as bv32)
        invariant !done
      {
        var sum := EntryFor(i as bv32);
        table[i] := sum;
      }
      done := true;
    }

    /** The inner loop of crcinit. */
    method EntryFor(i: bv32) returns (sum: bv32)
      ensures sum == Entry(i)
    {
      sum := 0;
      for j := 7 downto 0
        invariant sum == Partial(i, j)
      {
        if i & ((1 as bv32) << j) != 0 {
          sum := sum ^ (POLY >> j);
        }
      }
      PartialIsEntry(i);
    }

    /** crc32n */
    method Crc32n(s: seq<Byte>) returns (key: bv32)
      requires Valid()
      modifies this, table
      ensures Valid() && key == Hash(s)
    {
      if !done {
        Init();
      }
      key := 0;
      for i := 0 to |s|
        invariant Valid() && done && key == Hash(s[..i])
      {
        key := Advance(key, s[i]);
        assert s[..i + 1][..i] == s[..i];
      }
      assert s[..|s|] == s;
      key := key & 0xffffffff;
    }

    /** crc32: the bytes up to the terminating zero. */
    method Crc32(s: seq<Byte>, ghost len: nat) returns (key: bv32)
      requires Valid() && len < |s| && s[len] == 0 && forall i :: 0 <= i < len ==> s[i] != 0
      modifies this, table
      ensures Valid() && key == Hash(s[..len])
    {
      if !done {
        Init();
      }
      key := 0;
      var i := 0;
      while s[i] != 0
        invariant i <= len && Valid() && done && key == Hash(s[..i])
        decreases len - i
      {
        key := Advance(key, s[i]);
        assert s[..i + 1][..i] == s[..i];
        i := i + 1;
      }
      key := key & 0xffffffff;
    }

    /** One byte into the key: src/crc32.c:79. */
    method Advance(key: bv32, b: Byte) returns (next: bv32)
      requires Valid() && done
      ensures next == Step(key, b)
    {
      hide Plus, Wide, Down7, Index, Entry;
      IndexBack(key, b);
      next := Plus(Down7(key), table[Index(key, b) as int]);
    }
  }

  lemma IndexBack(key: bv32, b: Byte)
    ensures (Index(key, b) as int) < 128 && (Index(key, b) as int) as bv32 == Index(key, b)
  {
  }

  // ----- linearity -----

  function Up24(x: bv32): bv32 { x << 24 }

  function Up21(x: bv32): bv32 { x << 21 }

  /** The low seven bits, last one first. */
  function Reversed(i: bv32): bv32 {
    ((i & 64) >> 6) ^ ((i & 32) >> 4) ^ ((i & 16) >> 2) ^ (i & 8) ^ ((i & 4) << 2) ^ ((i & 2) << 4) ^ ((i & 1) << 6)
  }

  /** A table entry is its index reversed, at bits 24 and 21: the two set bits of POLY. */
  lemma EntryReversed(i: bv32)
    ensures Entry(i & 0x7f) == Plus(Up24(Reversed(i)), Up21(Reversed(i)))
  {
  }

  /** The same for a step, without the table. */
  function PlainStep(key: bv32, b: Byte): bv32 {
    var r := Reversed(Plus(key, Wide(b)));
    Plus(Down7(key), Plus(Up24(r), Up21(r)))
  }

  lemma StepIsPlain(key: bv32, b: Byte)
    ensures Step(key, b) == PlainStep(key, b)
  {
    hide Plus, Wide, Down7, Entry, Reversed, Up24, Up21;
    EntryReversed(Plus(key, Wide(b)));
  }

  lemma Associative(a: bv32, b: bv32, c: bv32)
    ensures Plus(Plus(a, b), c) == Plus(a, Plus(b, c))
  {
  }

  lemma Commutative(a: bv32, b: bv32)
    ensures Plus(a, b) == Plus(b, a)
  {
  }

  lemma Swap(a: bv32, b: bv32, c: bv32, d: bv32)
    ensures Plus(Plus(a, b), Plus(c, d)) == Plus(Plus(a, c), Plus(b, d))
  {
    hide Plus;
    Associative(a, b, Plus(c, d));
    Associative(b, c, d);
    Commutative(b, c);
    Associative(c, b, d);
    Associative(a, c, Plus(b, d));
  }

  lemma ReversedLinear(x: bv32, y: bv32)
    ensures Reversed(Plus(x, y)) == Plus(Reversed(x), Reversed(y))
  {
  }

  lemma Down7Linear(x: bv32, y: bv32)
    ensures Down7(Plus(x, y)) == Plus(Down7(x), Down7(y))
  {
  }

  lemma Up24Linear(x: bv32, y: bv32)
    ensures Up24(Plus(x, y)) == Plus(Up24(x), Up24(y))
  {
  }

  lemma Up21Linear(x: bv32, y: bv32)
    ensures Up21(Plus(x, y)) == Plus(Up21(x), Up21(y))
  {
  }

  lemma WideLinear(b: Byte, c: Byte)
    ensures Wide(PlusByte(b, c)) == Plus(Wide(b), Wide(c))
  {
  }

  lemma PlainLinear(k: bv32, l: bv32, b: Byte, c: Byte)
    ensures PlainStep(Plus(k, l), PlusByte(b, c)) == Plus(PlainStep(k, b), PlainStep(l, c))
  {
    hide Plus, PlusByte, Wide, Down7, Up24, Up21, Reversed;
    var x, y := Plus(k, Wide(b)), Plus(l, Wide(c));
    var r, s := Reversed(x), Reversed(y);
    WideLinear(b, c);
    Swap(k, l, Wide(b), Wide(c));
    ReversedLinear(x, y);
    Down7Linear(k, l);
    Up24Linear(r, s);
    Up21Linear(r, s);
    Swap(Up24(r), Up24(s), Up21(r), Up21(s));
    Swap(Down7(k), Down7(l), Plus(Up24(r), Up21(r)), Plus(Up24(s), Up21(s)));
  }

  lemma StepLinear(k: bv32, l: bv32, b: Byte, c: Byte)
    ensures Step(Plus(k, l), PlusByte(b, c)) == Plus(Step(k, b), Step(l, c))
  {
    hide Plus, PlusByte, Step, PlainStep;
    StepIsPlain(k, b);
    StepIsPlain(l, c);
    StepIsPlain(Plus(k, l), PlusByte(b, c));
    PlainLinear(k, l, b, c);
  }

  function Xor(a: seq<Byte>, b: seq<Byte>): (c: seq<Byte>)
    requires |a| == |b|
    ensures |c| == |a|
  {
    seq(|a|, i requires 0 <= i < |a| => PlusByte(a[i], b[i]))
  }

  lemma {:induction false} HashPlus(a: seq<Byte>, b: seq<Byte>)
    requires |a| == |b|
    ensures Hash(Xor(a, b)) == Plus(Hash(a), Hash(b))
  {
    if a != [] {
      hide Step, Plus, PlusByte;
      var m := |a| - 1;
      assert Xor(a, b)[..m] == Xor(a[..m], b[..m]);
      HashPlus(a[..m], b[..m]);
      StepLinear(Hash(a[..m]), Hash(b[..m]), a[m], b[m]);
    }
  }

  /** The hash of the exclusive or is the exclusive or of the hashes. */
  lemma HashLinear(a: seq<Byte>, b: seq<Byte>)
    requires |a| == |b|
    ensures Hash(Xor(a, b)) == Hash(a) ^ Hash(b)
  {
    hide Hash, Xor;
    HashPlus(a, b);
  }

  // ----- short differences are seen -----

  function Low(b: Byte): Byte { b & 0x7f }

  /** The high bit of a byte does not reach the hash. */
  lemma StepLow(k: bv32, b: Byte, c: Byte)
    requires Low(b) == Low(c)
    ensures Step(k, b) == Step(k, c)
  {
    hide Entry, Index;
    IndexLow(k, b, c);
  }

  lemma IndexLow(k: bv32, b: Byte, c: Byte)
    requires Low(b) == Low(c)
    ensures Index(k, b) == Index(k, c)
  {
  }

  /** A zero byte never takes a key other than zero to zero. */
  lemma StepInjective(k: bv32)
    requires k < LIMIT && Step(k, 0) == 0
    ensures k == 0
  {
    StepIsPlain(k, 0);
    hide Step;
  }

  lemma FourPlain(k1: bv32, k2: bv32, k3: bv32, k4: bv32, b: Byte, c: Byte, d: Byte, e: Byte)
    requires k1 == PlainStep(0, b) && k2 == PlainStep(k1, c) && k3 == PlainStep(k2, d) && k4 == PlainStep(k3, e)
    requires Low(b) != 0 || Low(c) != 0 || Low(d) != 0 || Low(e) != 0
    ensures k4 != 0
  {
  }

  lemma FourSteps(b: Byte, c: Byte, d: Byte, e: Byte)
    requires Low(b) != 0 || Low(c) != 0 || Low(d) != 0 || Low(e) != 0
    ensures Step(Step(Step(Step(0, b), c), d), e) != 0
  {
    var k1 := Step(0, b);
    var k2 := Step(k1, c);
    var k3 := Step(k2, d);
    StepIsPlain(0, b);
    StepIsPlain(k1, c);
    StepIsPlain(k2, d);
    StepIsPlain(k3, e);
    hide Step, PlainStep;
    FourPlain(k1, k2, k3, Step(k3, e), b, c, d, e);
  }

  lemma {:induction false} QuietStart(d: seq<Byte>)
    requires forall i :: 0 <= i < |d| ==> Low(d[i]) == 0
    ensures Hash(d) == 0
  {
    if d != [] {
      QuietStart(d[..|d| - 1]);
      StepLow(0, d[|d| - 1], 0);
      ZeroStep();
      hide Step;
    }
  }

  lemma ZeroStep()
    ensures Step(0, 0) == 0
  {
  }

  /** Nothing but zeros after a key other than zero leaves it other than zero. */
  lemma {:induction false} QuietEnd(d: seq<Byte>, from: nat)
    requires from <= |d| && Hash(d[..from]) != 0
    requires forall i :: from <= i < |d| ==> Low(d[i]) == 0
    ensures Hash(d) != 0
    decreases |d|
  {
    var m := |d| - 1;
    if from == |d| {
      assert d[..from] == d;
    } else {
      assert d[..m][..from] == d[..from];
      QuietEnd(d[..m], from);
      StepLow(Hash(d[..m]), d[m], 0);
      if Step(Hash(d[..m]), 0) == 0 { StepInjective(Hash(d[..m])); }
      hide Step;
    }
  }

  lemma HashFour(d: seq<Byte>)
    requires |d| >= 4 && Hash(d[..|d| - 4]) == 0
    requires exists k :: |d| - 4 <= k < |d| && Low(d[k]) != 0
    ensures Hash(d) != 0
  {
    var n := |d| - 4;
    var k :| n <= k < |d| && Low(d[k]) != 0;
    assert k == n || k == n + 1 || k == n + 2 || k == n + 3;
    hide *;
    FourSteps(d[n], d[n + 1], d[n + 2], d[n + 3]);
    HashNext(d, n);
    HashNext(d, n + 1);
    HashNext(d, n + 2);
    HashNext(d, n + 3);
    assert d[..n + 4] == d;
  }

  /** One more byte hashed. */
  lemma HashNext(d: seq<Byte>, n: nat)
    requires n < |d|
    ensures Hash(d[..n + 1]) == Step(Hash(d[..n]), d[n])
  {
    hide Step;
    assert d[..n + 1][..n] == d[..n];
  }

  /** A burst of differences within four bytes, nothing but zeros around it. */
  lemma BurstSeen(d: seq<Byte>, from: nat, k: nat)
    requires from <= k < from + 4 <= |d| && Low(d[k]) != 0
    requires forall i :: 0 <= i < |d| && !(from <= i < from + 4) ==> Low(d[i]) == 0
    ensures Hash(d) != 0
  {
    hide Step, Low;
    var w := d[..from + 4];
    assert w[..from] == d[..from] && w[k] == d[k];
    QuietStart(d[..from]);
    HashFour(w);
    QuietEnd(d, from + 4);
  }

  lemma PaddingQuiet(d: seq<Byte>)
    requires Hash(d) == 0
    ensures Hash(d + [0, 0, 0, 0]) == 0
  {
    hide Step;
    ZeroStep();
    var n, e := |d|, d + [0, 0, 0, 0];
    assert e[..n] == d && e[..n + 1][..n] == d && e[..n + 2][..n + 1] == e[..n + 1];
    assert e[..n + 3][..n + 2] == e[..n + 2] && e[..n + 4] == e && e[..|e| - 1] == e[..n + 3];
    assert Hash(e[..n + 1]) == 0;
    assert Hash(e[..n + 2]) == 0;
    assert Hash(e[..n + 3]) == 0;
  }

  lemma LowXor(b: Byte, c: Byte)
    ensures Low(PlusByte(b, c)) == 0 <==> Low(b) == Low(c)
  {
  }

  lemma SameHashZero(x: bv32, y: bv32)
    requires x == y
    ensures Plus(x, y) == 0
  {
  }

  /** Two strings of one length whose low seven bits differ somewhere, and only
      within four consecutive bytes, never have the same hash. */
  lemma NearStringsDiffer(a: seq<Byte>, b: seq<Byte>, from: nat, k: nat)
    requires |a| == |b| && k < |a| && from <= k < from + 4 && Low(a[k]) != Low(b[k])
    requires forall i :: 0 <= i < |a| && !(from <= i < from + 4) ==> Low(a[i]) == Low(b[i])
    ensures Hash(a) != Hash(b)
  {
    var d := Xor(a, b);
    var e := d + [0, 0, 0, 0];
    forall i | 0 <= i < |a| ensures Low(d[i]) == 0 <==> Low(a[i]) == Low(b[i]) {
      LowXor(a[i], b[i]);
    }
    assert Low(0) == 0;
    hide Step, Low, Hash, Plus;
    BurstSeen(e, from, k);
    if Hash(a) == Hash(b) {
      HashPlus(a, b);
      SameHashZero(Hash(a), Hash(b));
      PaddingQuiet(d);
      assert false;
    }
  }

  lemma HashFive(b: Byte, c: Byte, d: Byte, e: Byte, f: Byte, k1: bv32, k2: bv32, k3: bv32, k4: bv32)
    requires k1 == Step(0, b) && k2 == Step(k1, c) && k3 == Step(k2, d) && k4 == Step(k3, e)
    ensures Hash([b, c, d, e, f]) == Step(k4, f)
  {
    hide Step;
    var s := [b, c, d, e, f];
    assert s[..1][..0] == [] && s[..2][..1] == s[..1] && s[..3][..2] == s[..2] && s[..4][..3] == s[..3];
    assert Hash(s[..1]) == k1;
    assert Hash(s[..2]) == k2;
    assert Hash(s[..3]) == k3;
    assert Hash(s[..4]) == k4;
  }

  /** One byte after nothing: every bit has its own place, and bit seven none. */
  lemma SingleBits()
    ensures Step(0, 1) == 0x48000000 && Step(0, 2) == 0x24000000 && Step(0, 4) == 0x12000000
    ensures Step(0, 8) == 0x09000000 && Step(0, 16) == 0x04800000 && Step(0, 32) == 0x02400000
    ensures Step(0, 64) == 0x01200000 && Step(0, 128) == 0
  {
  }

  /** The hash of "Splay". */
  lemma HashOfSplay()
    ensures Hash([83, 112, 108, 97, 121]) == 0x1456a1b9
  {
    assert Step(0x00000000, 83) == 0x69a00000;
    assert Step(0x69a00000, 112) == 0x07334000;
    assert Step(0x07334000, 108) == 0x186e6680;
    assert Step(0x186e6680, 97) == 0x4b50dccd;
    assert Step(0x4b50dccd, 121) == 0x1456a1b9;
    hide Step;
    HashFive(83, 112, 108, 97, 121, 0x69a00000, 0x07334000, 0x186e6680, 0x4b50dccd);
  }

  /** Five bytes are too many: "aaaaa" and "Aaaas" have the same hash. */
  lemma FiveBytesCollide()
    ensures Hash([97, 97, 97, 97, 97]) == Hash([65, 97, 97, 97, 115])
  {
    assert Step(0x00000000, 97) == 0x4b600000;
    assert Step(0x4b600000, 97) == 0x4bf6c000;
    assert Step(0x4bf6c000, 97) == 0x4bf7ed80;
    assert Step(0x4bf7ed80, 97) == 0x4bf7efdb;
    assert Step(0x4bf7efdb, 97) == 0x2b57efdf;
    assert Step(0x00000000, 65) == 0x49200000;
    assert Step(0x49200000, 97) == 0x4bf24000;
    assert Step(0x4bf24000, 97) == 0x4bf7e480;
    assert Step(0x4bf7e480, 97) == 0x4bf7efc9;
    assert Step(0x4bf7efc9, 115) == 0x2b57efdf;
    hide Step;
    HashFive(97, 97, 97, 97, 97, 0x4b600000, 0x4bf6c000, 0x4bf7ed80, 0x4bf7efdb);
    HashFive(65, 97, 97, 97, 115, 0x49200000, 0x4bf24000, 0x4bf7e480, 0x4bf7efc9);
  }
}
