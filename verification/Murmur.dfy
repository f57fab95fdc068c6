/** MurmurHash3 as both sides compute it, and the bucket index built on it. */
module Murmur {

  const HT_SEED: bv32 := 4426

  // ---------------------------------------------------------------- primitive steps

  function TimesC1(x: bv32): bv32 { x * 0xcc9e2d51 }
  function TimesC2(x: bv32): bv32 { x * 0x1b873593 }
  function TimesF1(x: bv32): bv32 { x * 0x85ebca6b }
  function TimesF2(x: bv32): bv32 { x * 0xc2b2ae35 }
  function RotL15(x: bv32): bv32 { (x << 15) | (x >> 17) }
  function RotL13(x: bv32): bv32 { (x << 13) | (x >> 19) }
  function Stretch(x: bv32): bv32 { x * 5 + 0xe6546b64 }
  function Xor(x: bv32, y: bv32): bv32 { x ^ y }
  function Shr16(x: bv32): bv32 { x >> 16 }
  function Shr13(x: bv32): bv32 { x >> 13 }
  function Fold16(x: bv32): bv32 { Xor(x, Shr16(x)) }
  function Fold13(x: bv32): bv32 { Xor(x, Shr13(x)) }

  // and how each is undone; the factors are the inverses modulo 2^32

  function OverC1(x: bv32): bv32 { x * 0xdee13bb1 }
  function OverC2(x: bv32): bv32 { x * 0x56ed309b }
  function OverF1(x: bv32): bv32 { x * 0xa5cb9243 }
  function OverF2(x: bv32): bv32 { x * 0x7ed1b41d }
  function RotR15(x: bv32): bv32 { (x << 17) | (x >> 15) }
  function RotR13(x: bv32): bv32 { (x << 19) | (x >> 13) }
  function Unstretch(x: bv32): bv32 { (x - 0xe6546b64) * 0xcccccccd }
  function Unfold13(x: bv32): bv32 { Xor(x, Shr13(Fold13(x))) }

  lemma FactorsUndone(x: bv32)
    ensures OverC1(TimesC1(x)) == x && TimesC1(OverC1(x)) == x
    ensures OverC2(TimesC2(x)) == x && TimesC2(OverC2(x)) == x
    ensures OverF1(TimesF1(x)) == x && TimesF1(OverF1(x)) == x
    ensures OverF2(TimesF2(x)) == x && TimesF2(OverF2(x)) == x
    ensures Unstretch(Stretch(x)) == x && Stretch(Unstretch(x)) == x
  {
  }

  lemma ShufflesUndone(x: bv32)
    ensures RotR15(RotL15(x)) == x && RotL15(RotR15(x)) == x
    ensures RotR13(RotL13(x)) == x && RotL13(RotR13(x)) == x
  {
  }

  lemma XorUndone(x: bv32, y: bv32)
    ensures Xor(x, Xor(x, y)) == y && Xor(Xor(x, y), y) == x && Xor(x, y) == Xor(y, x)
  {
  }

  lemma XorZero(x: bv32)
    ensures Xor(x, 0) == x
  {
  }

  lemma XorCancels(x: bv32, y: bv32, z: bv32)
    ensures Xor(Xor(x, y), Xor(y, z)) == Xor(x, z)
  {
  }

  lemma Shr13OfXor(x: bv32, y: bv32)
    ensures Shr13(Xor(x, y)) == Xor(Shr13(x), Shr13(y))
  {
  }

  lemma Shr13Thrice(x: bv32)
    ensures Shr13(Shr13(Shr13(x))) == 0
  {
  }

  lemma Shr16OfFold(x: bv32)
    ensures Shr16(Fold16(x)) == Shr16(x)
  {
  }

  lemma Fold16Undone(x: bv32)
    ensures Fold16(Fold16(x)) == x
  {
    Shr16OfFold(x);
    XorUndone(x, Shr16(x));
  }

  lemma Shr13OfFold(x: bv32)
    ensures Shr13(Fold13(x)) == Xor(Shr13(x), Shr13(Shr13(x)))
  {
    Shr13OfXor(x, Shr13(x));
  }

  lemma Fold13Undone(x: bv32)
    ensures Unfold13(Fold13(x)) == x
  {
    var a := Shr13(x);
    var b := Shr13(a);
    Shr13OfFold(x);
    XorCancels(x, a, b);
    assert Fold13(Fold13(x)) == Xor(x, b);
    Shr13OfXor(x, b);
    Shr13Thrice(x);
    XorZero(a);
    XorUndone(x, a);
  }

  lemma Unfold13Undone(x: bv32)
    ensures Fold13(Unfold13(x)) == x
  {
    var a := Shr13(x);
    var b := Shr13(a);
    Shr13OfFold(x);
    assert Unfold13(x) == Xor(x, Xor(a, b));
    Shr13OfXor(x, Xor(a, b));
    Shr13OfXor(a, b);
    Shr13Thrice(x);
    XorZero(b);
    XorUndone(x, Xor(a, b));
  }

  // ---------------------------------------------------------------- the mixing steps

  function Scramble(k: bv32): bv32 { TimesC2(RotL15(TimesC1(k))) }
  function Unscramble(k: bv32): bv32 { OverC1(RotR15(OverC2(k))) }

  function Absorb(h: bv32, k: bv32): bv32 { Stretch(RotL13(Xor(h, Scramble(k)))) }
  function Unabsorb(h: bv32, g: bv32): bv32 { Unscramble(Xor(h, RotR13(Unstretch(g)))) }

  function Finish(h: bv32): bv32 { Fold16(TimesF2(Fold13(TimesF1(Fold16(h))))) }
  function Unfinish(h: bv32): bv32 { Fold16(OverF1(Unfold13(OverF2(Fold16(h))))) }

  lemma ScrambleUndone(k: bv32)
    ensures Unscramble(Scramble(k)) == k && Scramble(Unscramble(k)) == k
  {
    FactorsUndone(k);
    ShufflesUndone(TimesC1(k));
    FactorsUndone(RotL15(TimesC1(k)));
    ShufflesUndone(OverC2(k));
    FactorsUndone(RotR15(OverC2(k)));
  }

  lemma AbsorbUndone(h: bv32, k: bv32)
    ensures Unabsorb(h, Absorb(h, k)) == k && Absorb(h, Unabsorb(h, k)) == k
  {
    var x := Xor(h, Scramble(k));
    FactorsUndone(RotL13(x)); ShufflesUndone(x); XorUndone(h, Scramble(k)); ScrambleUndone(k);
    var y := RotR13(Unstretch(k));
    ScrambleUndone(Xor(h, y)); XorUndone(h, y); ShufflesUndone(Unstretch(k)); FactorsUndone(k);
  }

  lemma FinishUndone(h: bv32)
    ensures Unfinish(Finish(h)) == h && Finish(Unfinish(h)) == h
  {
    var a := Fold16(h);
    Fold16Undone(h);
    FactorsUndone(a);
    Fold13Undone(TimesF1(a));
    FactorsUndone(Fold13(TimesF1(a)));
    Fold16Undone(TimesF2(Fold13(TimesF1(a))));
    Unfold13Undone(OverF2(a));
    FactorsUndone(Unfold13(OverF2(a)));
    Fold16Undone(OverF1(Unfold13(OverF2(a))));
  }

  /** Absorbing one block from two different states keeps them different. */
  lemma AbsorbKeepsApart(g: bv32, h: bv32, k: bv32)
    requires g != h
    ensures Absorb(g, k) != Absorb(h, k)
  {
    var s := Scramble(k);
    XorUndone(g, s); XorUndone(h, s);
    ShufflesUndone(Xor(g, s)); ShufflesUndone(Xor(h, s));
    FactorsUndone(RotL13(Xor(g, s))); FactorsUndone(RotL13(Xor(h, s)));
  }

  // ---------------------------------------------------------------- the hash of a byte string

  function Word(b0: bv8, b1: bv8, b2: bv8, b3: bv8): bv32 {
    (b0 as bv32) | ((b1 as bv32) << 8) | ((b2 as bv32) << 16) | ((b3 as bv32) << 24)
  }

  lemma WordDetermines(a0: bv8, a1: bv8, a2: bv8, a3: bv8, b0: bv8, b1: bv8, b2: bv8, b3: bv8)
    requires Word(a0, a1, a2, a3) == Word(b0, b1, b2, b3)
    ensures a0 == b0 && a1 == b1 && a2 == b2 && a3 == b3
  {
  }

  /** The j-th 4-byte block, read in the byte order of the machine. */
  function Block(data: seq<bv8>, j: nat): bv32
    requires 4 * j + 4 <= |data|
  {
    Word(data[4 * j], data[4 * j + 1], data[4 * j + 2], data[4 * j + 3])
  }

  /** The state after the first n blocks. */
  function Body(data: seq<bv8>, seed: bv32, n: nat): bv32
    requires 4 * n <= |data|
  {
    if n == 0 then seed else Absorb(Body(data, seed, n - 1), Block(data, n - 1))
  }

  /** The zero to three bytes behind the last block. */
  function TailByte(data: seq<bv8>, i: nat): bv8
    requires i < 3
  {
    if i < |data| % 4 then data[|data| / 4 * 4 + i] else 0
  }

  function Tail(data: seq<bv8>): bv32 {
    Word(TailByte(data, 0), TailByte(data, 1), TailByte(data, 2), 0)
  }

  function Length(data: seq<bv8>): bv32
    requires |data| < 0x8000_0000
  {
    |data| as bv32
  }

  function Hash(data: seq<bv8>, seed: bv32): bv32
    requires |data| < 0x8000_0000
  {
    Finish(Xor(Xor(Body(data, seed, |data| / 4), Scramble(Tail(data))), Length(data)))
  }

  function At16(b: bv8): bv32 { (b as bv32) << 16 }
  function At8(b: bv8): bv32 { (b as bv32) << 8 }
  function At0(b: bv8): bv32 { b as bv32 }

  /** The tail as the fall-through switch assembles it. */
  lemma TailAssembled(b0: bv8, b1: bv8, b2: bv8)
    ensures Xor(Xor(Xor(0, At16(b2)), At8(b1)), At0(b0)) == Word(b0, b1, b2, 0)
    ensures Xor(Xor(0, At8(b1)), At0(b0)) == Word(b0, b1, 0, 0)
    ensures Xor(0, At0(b0)) == Word(b0, 0, 0, 0)
  {
  }

  lemma NoTail(data: seq<bv8>)
    requires |data| % 4 == 0
    ensures Tail(data) == 0
  {
  }

  lemma NothingToScramble(h: bv32)
    ensures Scramble(0) == 0 && Xor(h, 0) == h
  {
  }

  /** The tail switch. */
  method ReadTail(data: seq<bv8>) returns (k: bv32)
    requires |data| % 4 != 0
    ensures k == Tail(data)
  {
    var t, rest := |data| / 4 * 4, |data| % 4;
    TailAssembled(TailByte(data, 0), TailByte(data, 1), TailByte(data, 2));
    k := 0;
    if rest >= 3 {
      k := Xor(k, At16(data[t + 2]));
    }
    if rest >= 2 {
      k := Xor(k, At8(data[t + 1]));
    }
    k := Xor(k, At0(data[t]));
  }

  method MurmurHash3(data: seq<bv8>, seed: bv32) returns (h: bv32)
    requires |data| < 0x8000_0000
    ensures h == Hash(data, seed)
  {
    h := seed;
    for i := 0 to |data| / 4
      invariant h == Body(data, seed, i)
    {
      var k := Block(data, i);
      k := TimesC1(k);
      k := RotL15(k);
      k := TimesC2(k);
      h := Xor(h, k);
      h := RotL13(h);
      h := Stretch(h);
    }
    if |data| % 4 == 0 {
      NoTail(data);
      NothingToScramble(h);
    } else {
      var k := ReadTail(data);
      k := TimesC1(k);
      k := RotL15(k);
      k := TimesC2(k);
      h := Xor(h, k);
    }
    h := Xor(h, Length(data));
    h := Fold16(h);
    h := TimesF1(h);
    h := Fold13(h);
    h := TimesF2(h);
    h := Fold16(h);
  }

  // ---------------------------------------------------------------- one differing block

  /** The two strings differ, but only inside block j. */
  predicate DifferInBlock(a: seq<bv8>, b: seq<bv8>, j: nat) {
    && |a| == |b| && 4 * j + 4 <= |a|
    && a[4 * j..4 * j + 4] != b[4 * j..4 * j + 4]
    && a[..4 * j] == b[..4 * j] && a[4 * j + 4..] == b[4 * j + 4..]
  }

  /** The two strings differ, but only behind the last whole block. */
  predicate DifferInTail(a: seq<bv8>, b: seq<bv8>) {
    && |a| == |b| && a != b
    && a[..|a| / 4 * 4] == b[..|a| / 4 * 4]
  }

  lemma {:induction false} SameBody(a: seq<bv8>, b: seq<bv8>, seed: bv32, n: nat)
    requires |a| == |b| && 4 * n <= |a| && a[..4 * n] == b[..4 * n]
    ensures Body(a, seed, n) == Body(b, seed, n)
  {
    if n > 0 {
      assert a[..4 * n][..4 * (n - 1)] == a[..4 * (n - 1)];
      assert b[..4 * n][..4 * (n - 1)] == b[..4 * (n - 1)];
      SameBody(a, b, seed, n - 1);
      assert forall i :: 0 <= i < 4 * n ==> a[i] == a[..4 * n][i] == b[..4 * n][i] == b[i];
    }
  }

  lemma BlocksDiffer(a: seq<bv8>, b: seq<bv8>, j: nat)
    requires DifferInBlock(a, b, j)
    ensures Block(a, j) != Block(b, j)
  {
    var i := 4 * j;
    assert a[i..i + 4] == [a[i], a[i + 1], a[i + 2], a[i + 3]];
    assert b[i..i + 4] == [b[i], b[i + 1], b[i + 2], b[i + 3]];
    if Block(a, j) == Block(b, j) {
      WordDetermines(a[i], a[i + 1], a[i + 2], a[i + 3], b[i], b[i + 1], b[i + 2], b[i + 3]);
    }
  }

  lemma SameBehind(a: seq<bv8>, b: seq<bv8>, j: nat, i: nat)
    requires DifferInBlock(a, b, j) && 4 * j + 4 <= i < |a|
    ensures a[i] == b[i]
  {
    assert a[i] == a[4 * j + 4..][i - (4 * j + 4)];
    assert b[i] == b[4 * j + 4..][i - (4 * j + 4)];
  }

  lemma BodiesPart(a: seq<bv8>, b: seq<bv8>, seed: bv32, j: nat)
    requires DifferInBlock(a, b, j)
    ensures Body(a, seed, j + 1) != Body(b, seed, j + 1)
  {
    SameBody(a, b, seed, j);
    BlocksDiffer(a, b, j);
    AbsorbUndone(Body(a, seed, j), Block(a, j));
    AbsorbUndone(Body(a, seed, j), Block(b, j));
  }

  lemma SameBlockBehind(a: seq<bv8>, b: seq<bv8>, j: nat, n: nat)
    requires DifferInBlock(a, b, j) && j < n && 4 * n + 4 <= |a|
    ensures Block(a, n) == Block(b, n)
  {
    SameBehind(a, b, j, 4 * n);
    SameBehind(a, b, j, 4 * n + 1);
    SameBehind(a, b, j, 4 * n + 2);
    SameBehind(a, b, j, 4 * n + 3);
  }

  lemma {:induction false} BodiesStayApart(a: seq<bv8>, b: seq<bv8>, seed: bv32, j: nat, n: nat)
    requires DifferInBlock(a, b, j) && j < n && 4 * n <= |a|
    ensures Body(a, seed, n) != Body(b, seed, n)
  {
    if n == j + 1 {
      BodiesPart(a, b, seed, j);
    } else {
      BodiesStayApart(a, b, seed, j, n - 1);
      SameBlockBehind(a, b, j, n - 1);
      AbsorbKeepsApart(Body(a, seed, n - 1), Body(b, seed, n - 1), Block(a, n - 1));
    }
  }

  lemma FinishKeepsApart(g: bv32, h: bv32, s: bv32, t: bv32)
    requires g != h
    ensures Finish(Xor(Xor(g, s), t)) != Finish(Xor(Xor(h, s), t))
  {
    XorUndone(g, s); XorUndone(h, s);
    XorUndone(Xor(g, s), t); XorUndone(Xor(h, s), t);
    FinishUndone(Xor(Xor(g, s), t)); FinishUndone(Xor(Xor(h, s), t));
  }

  /** Strings of one length that differ in exactly one block have different hashes. */
  lemma OneBlockChangesHash(a: seq<bv8>, b: seq<bv8>, seed: bv32, j: nat)
    requires DifferInBlock(a, b, j) && |a| < 0x8000_0000
    ensures Hash(a, seed) != Hash(b, seed)
  {
    var n := |a| / 4;
    BodiesStayApart(a, b, seed, j, n);
    forall i | 4 * n <= i < |a| ensures a[i] == b[i] { SameBehind(a, b, j, i); }
    assert Tail(a) == Tail(b);
    FinishKeepsApart(Body(a, seed, n), Body(b, seed, n), Scramble(Tail(a)), Length(a));
  }

  lemma TailsDiffer(a: seq<bv8>, b: seq<bv8>)
    requires DifferInTail(a, b)
    ensures Tail(a) != Tail(b)
  {
    var t := |a| / 4 * 4;
    assert forall i :: 0 <= i < t ==> a[i] == a[..t][i] == b[..t][i] == b[i];
    var i :| 0 <= i < |a| && a[i] != b[i];
    assert i >= t;
    assert TailByte(a, i - t) == a[i] && TailByte(b, i - t) == b[i];
    if Tail(a) == Tail(b) {
      WordDetermines(TailByte(a, 0), TailByte(a, 1), TailByte(a, 2), 0,
                     TailByte(b, 0), TailByte(b, 1), TailByte(b, 2), 0);
    }
  }

  lemma TailKeepsApart(h: bv32, s: bv32, t: bv32, len: bv32)
    requires s != t
    ensures Finish(Xor(Xor(h, Scramble(s)), len)) != Finish(Xor(Xor(h, Scramble(t)), len))
  {
    ScrambleUndone(s); ScrambleUndone(t);
    var g0, g1 := Xor(h, Scramble(s)), Xor(h, Scramble(t));
    XorUndone(h, Scramble(s)); XorUndone(h, Scramble(t));
    XorUndone(g0, len); XorUndone(g1, len);
    FinishUndone(Xor(g0, len)); FinishUndone(Xor(g1, len));
  }

  /** And so have strings that differ only in the tail. */
  lemma TailChangesHash(a: seq<bv8>, b: seq<bv8>, seed: bv32)
    requires DifferInTail(a, b) && |a| < 0x8000_0000
    ensures Hash(a, seed) != Hash(b, seed)
  {
    var n := |a| / 4;
    SameBody(a, b, seed, n);
    TailsDiffer(a, b);
    TailKeepsApart(Body(a, seed, n), Tail(a), Tail(b), Length(a));
  }

  lemma FinishedValues()
    ensures Finish(1) == 0x514e28b7
    ensures Finish(0xbb095db0) == 0xf55b516b
    ensures Finish(0x17a6636d) == 0x7e4a8634
  {
  }

  lemma MixedValues()
    ensures Word(0x21, 0x43, 0x65, 0x87) == 0x87654321 && Absorb(0, 0x87654321) == 0xbb095db4
    ensures Word(0x21, 0x43, 0x65, 0) == 0x654321 && Scramble(0x654321) == 0x17a6636e
    ensures Xor(1, 0) == 1 && Xor(0xbb095db4, 4) == 0xbb095db0 && Xor(Xor(0, 0x17a6636e), 3) == 0x17a6636d
  {
  }

  /** Values that MurmurHash3_x86_32 is known to have: for an empty string, one block and a tail. */
  lemma KnownValues()
    ensures Hash([], 1) == 0x514e28b7
    ensures Hash([0x21, 0x43, 0x65, 0x87], 0) == 0xf55b516b
    ensures Hash([0x21, 0x43, 0x65], 0) == 0x7e4a8634
  {
    FinishedValues();
    MixedValues();
    NothingToScramble(1);
    NothingToScramble(0xbb095db4);
    hide Finish, Absorb, Scramble, Word, Xor;
    var none: seq<bv8>, block: seq<bv8>, tail: seq<bv8> := [], [0x21, 0x43, 0x65, 0x87], [0x21, 0x43, 0x65];
    NoTail(none);
    NoTail(block);
    LengthOfKey(block);
    assert Length(none) == 0 && Length(tail) == 3;
    assert Body(block, 0, 1) == Absorb(Body(block, 0, 0), Block(block, 0));
    assert Tail(tail) == Word(0x21, 0x43, 0x65, 0);
  }

  lemma LongMixes()
    ensures Absorb(1234, 0x6c6c6548) == 0xce5f2c36
    ensures Absorb(0xce5f2c36, 0x77202c6f) == 0xcab5bb8f
  {
  }

  lemma LongMixesOn()
    ensures Absorb(0xcab5bb8f, 0x646c726f) == 0xa2fce949
    ensures Scramble(0x00000021) == 0xac5e5123 && Xor(Xor(0xa2fce949, 0xac5e5123), 13) == 0x0ea2b867
  {
  }

  lemma LongWords()
    ensures Word(0x48, 0x65, 0x6c, 0x6c) == 0x6c6c6548 && Word(0x6f, 0x2c, 0x20, 0x77) == 0x77202c6f && Word(0x6f, 0x72, 0x6c, 0x64) == 0x646c726f
    ensures Word(0x21, 0, 0, 0) == 0x00000021 && Finish(0x0ea2b867) == 0xfaf6cdb3
  {
  }

  /** The hash of "Hello, world!" with seed 1234: three blocks in order and a tail of one byte. */
  lemma KnownLongValue()
    ensures Hash([0x48, 0x65, 0x6c, 0x6c, 0x6f, 0x2c, 0x20, 0x77, 0x6f, 0x72, 0x6c, 0x64, 0x21], 1234) == 0xfaf6cdb3
  {
    LongMixes();
    LongMixesOn();
    LongWords();
    hide Finish, Absorb, Scramble, Word, Xor;
    var data: seq<bv8> := [0x48, 0x65, 0x6c, 0x6c, 0x6f, 0x2c, 0x20, 0x77, 0x6f, 0x72, 0x6c, 0x64, 0x21];
    assert Body(data, 1234, 1) == Absorb(1234, Block(data, 0));
    assert Body(data, 1234, 2) == Absorb(Body(data, 1234, 1), Block(data, 1));
    assert Body(data, 1234, 3) == Absorb(Body(data, 1234, 2), Block(data, 2));
    assert Tail(data) == Word(0x21, 0, 0, 0);
    assert Length(data) == 13;
  }

  // ---------------------------------------------------------------- four-byte keys

  /** The hash of a C `int`, given as its 32 bits. */
  function HashKey(key: bv32): bv32 {
    Finish(Xor(Absorb(HT_SEED, key), 4))
  }

  function UnhashKey(h: bv32): bv32 {
    Unabsorb(HT_SEED, Xor(Unfinish(h), 4))
  }

  /** `hashFunction`: the bucket of a key. */
  function Bucket(key: bv32): bv32 {
    Low(HashKey(key))
  }

  function Low(h: bv32): bv32 { h % 1024 }

  lemma LengthOfKey(data: seq<bv8>)
    requires |data| == 4
    ensures Length(data) == 4
  {
  }

  lemma HashKeyIsHash(b0: bv8, b1: bv8, b2: bv8, b3: bv8)
    ensures Hash([b0, b1, b2, b3], HT_SEED) == HashKey(Word(b0, b1, b2, b3))
  {
    var data := [b0, b1, b2, b3];
    assert Body(data, HT_SEED, 1) == Absorb(Body(data, HT_SEED, 0), Block(data, 0));
    NoTail(data);
    LengthOfKey(data);
    NothingToScramble(Body(data, HT_SEED, 1));
  }

  /** On four-byte keys the hash is a bijection of the 32-bit values. */
  lemma HashKeyIsBijection(key: bv32)
    ensures UnhashKey(HashKey(key)) == key
    ensures HashKey(UnhashKey(key)) == key
  {
    var g := Absorb(HT_SEED, key);
    FinishUndone(Xor(g, 4));
    XorUndone(g, 4);
    AbsorbUndone(HT_SEED, key);
    var u := Xor(Unfinish(key), 4);
    AbsorbUndone(HT_SEED, u);
    XorUndone(Unfinish(key), 4);
    FinishUndone(key);
  }

  lemma AbsorbedKeys()
    ensures Xor(Absorb(HT_SEED, 19), 4) == 0x2b52c0f1 && Xor(Absorb(HT_SEED, 45), 4) == 0xf9cbba93
  {
  }

  lemma FinishedKeys()
    ensures Finish(0x2b52c0f1) == 0xa19a870f && Low(0xa19a870f) == 783
    ensures Finish(0xf9cbba93) == 0x3b33170f && Low(0x3b33170f) == 783
  {
  }

  /** Small descriptors do collide. */
  lemma Collision()
    ensures Bucket(19) == 783 && Bucket(45) == 783
  {
    AbsorbedKeys();
    FinishedKeys();
    hide Absorb, Finish, Xor, Low;
  }

  /** The keys of bucket i, numbered by the 22-bit values. */
  function KeyAt(i: bv32, n: bv22): bv32 {
    UnhashKey(Combine(i, n))
  }

  function Combine(i: bv32, n: bv22): bv32 { ((n as bv32) << 10) | i }
  function High(h: bv32): bv22 { (h >> 10) as bv22 }

  lemma CombineSplits(i: bv32, n: bv22, h: bv32)
    requires i < 1024
    ensures Low(Combine(i, n)) == i && High(Combine(i, n)) == n
    ensures Combine(Low(h), High(h)) == h
  {
  }

  lemma KeyAtIsInBucket(i: bv32, n: bv22)
    requires i < 1024
    ensures Bucket(KeyAt(i, n)) == i
  {
    HashKeyIsBijection(Combine(i, n));
    CombineSplits(i, n, 0);
  }

  lemma KeyAtIsInjective(i: bv32, m: bv22, n: bv22)
    requires i < 1024 && m != n
    ensures KeyAt(i, m) != KeyAt(i, n)
  {
    HashKeyIsBijection(Combine(i, m));
    HashKeyIsBijection(Combine(i, n));
    CombineSplits(i, m, 0);
    CombineSplits(i, n, 0);
  }

  lemma KeyAtReachesAll(key: bv32)
    ensures key == KeyAt(Bucket(key), High(HashKey(key)))
  {
    HashKeyIsBijection(key);
    CombineSplits(0, 0, HashKey(key));
  }

  /** Every bucket gets exactly 2^22 keys: KeyAt(i, .) maps the 22-bit values one to one onto the
      keys of bucket i. */
  lemma BucketsAreEven(i: bv32)
    requires i < 1024
    ensures forall n :: Bucket(KeyAt(i, n)) == i
    ensures forall m, n :: m != n ==> KeyAt(i, m) != KeyAt(i, n)
    ensures forall key :: Bucket(key) == i ==> exists n :: key == KeyAt(i, n)
  {
    hide Bucket, KeyAt;
    forall n ensures Bucket(KeyAt(i, n)) == i { KeyAtIsInBucket(i, n); }
    forall m, n | m != n ensures KeyAt(i, m) != KeyAt(i, n) { KeyAtIsInjective(i, m, n); }
    forall key | Bucket(key) == i ensures exists n :: key == KeyAt(i, n) { KeyAtReachesAll(key); }
  }
}
