/** Bytes, little-endian integers and the C conversions that the wire format relies on. */
module Bytes {

  type byte = x: int | 0 <= x < 256

  /** The n-byte little-endian representation of x, reduced modulo 256^n. */
  function Put(n: nat, x: nat): (s: seq<byte>)
    ensures |s| == n
  {
    if n == 0 then [] else [x % 256] + Put(n - 1, x / 256)
  }

  /** The number that a little-endian byte string denotes. */
  function Get(s: seq<byte>): (x: nat)
    ensures x < Pow256(|s|)
  {
    if s == [] then 0 else s[0] + 256 * Get(s[1..])
  }

  function Pow256(n: nat): (p: nat)
    ensures p > 0
  {
    if n == 0 then 1 else 256 * Pow256(n - 1)
  }

  lemma {:induction false} GetPut(n: nat, x: nat)
    requires x < Pow256(n)
    ensures Get(Put(n, x)) == x
  {
    if n > 0 {
      GetPut(n - 1, x / 256);
      assert Put(n, x)[1..] == Put(n - 1, x / 256);
    }
  }

  lemma {:induction false} PutGet(s: seq<byte>)
    ensures Put(|s|, Get(s)) == s
  {
    if s != [] {
      PutGet(s[1..]);
      assert s == [s[0]] + s[1..];
    }
  }

  lemma Pow256Values()
    ensures Pow256(4) == 0x1_0000_0000
    ensures Pow256(8) == 0x1_0000_0000_0000_0000
  {
    assert Pow256(2) == 0x1_0000;
    assert Pow256(3) == 0x100_0000;
    assert Pow256(4) == 0x1_0000_0000;
    assert Pow256(5) == 0x100_0000_0000;
    assert Pow256(6) == 0x1_0000_0000_0000;
    assert Pow256(7) == 0x100_0000_0000_0000;
  }

  /** Conversion of a wider integer to a 32-bit C `int`. */
  function ToInt32(x: int): (r: int)
    ensures -0x8000_0000 <= r < 0x8000_0000
    ensures -0x8000_0000 <= x < 0x8000_0000 ==> r == x
    ensures (x - r) % 0x1_0000_0000 == 0
  {
    (x + 0x8000_0000) % 0x1_0000_0000 - 0x8000_0000
  }

  predicate IsInt32(x: int) {
    -0x8000_0000 <= x < 0x8000_0000
  }

  /** The four bytes of a C `int`, and back. */
  function PutInt(x: int): (s: seq<byte>)
    ensures |s| == 4
  {
    Put(4, x % 0x1_0000_0000)
  }

  function GetInt(s: seq<byte>): (x: int)
    ensures |s| == 4 ==> IsInt32(x)
  {
    ToInt32(Get(s))
  }

  lemma GetPutInt(x: int)
    requires IsInt32(x)
    ensures GetInt(PutInt(x)) == x
  {
    Pow256Values();
    GetPut(4, x % 0x1_0000_0000);
  }

  function Min(a: int, b: int): int {
    if a < b then a else b
  }

  function Zeros(n: nat): (z: seq<byte>)
    ensures |z| == n
  {
    seq(n, _ => 0)
  }

  /** `memcpy` of `bytes` to the front of a buffer; what does not fit the buffer is cut off. */
  function Overlay(buf: seq<byte>, bytes: seq<byte>): (r: seq<byte>)
    ensures |r| == |buf|
    ensures |bytes| <= |buf| ==> bytes <= r && r[|bytes|..] == buf[|bytes|..]
  {
    if |bytes| <= |buf| then bytes + buf[|bytes|..] else bytes[..|buf|]
  }

  /** `memcpy` of `bytes` to `buf + at`. */
  function Splice(buf: seq<byte>, at: nat, bytes: seq<byte>): (r: seq<byte>)
    requires at + |bytes| <= |buf|
    ensures |r| == |buf|
  {
    buf[..at] + bytes + buf[at + |bytes|..]
  }

  lemma SpliceParts(buf: seq<byte>, at: nat, bytes: seq<byte>)
    requires at + |bytes| <= |buf|
    ensures var r := Splice(buf, at, bytes);
            r[at..at + |bytes|] == bytes && r[..at] == buf[..at] && r[at + |bytes|..] == buf[at + |bytes|..]
  {
  }
}
