/** The data part of a message as the codecs see it: a byte buffer written at offsets. */
module WireBuffer {
  import opened Bytes

  /** `memcpy` into a message. */
  method Store(msg: array<byte>, at: nat, bytes: seq<byte>)
    requires at + |bytes| <= msg.Length
    modifies msg
    ensures msg[..] == Splice(old(msg[..]), at, bytes)
  {
    forall i | 0 <= i < |bytes| {
      msg[at + i] := bytes[i];
    }
    assert msg[..] == old(msg[..])[..at] + bytes + old(msg[..])[at + |bytes|..];
  }

  /** The n bytes at an offset. */
  function Field(m: seq<byte>, at: nat, n: nat): (f: seq<byte>)
    requires at + n <= |m|
    ensures |f| == n
  {
    m[at..at + n]
  }

  lemma SliceOfSlice(m: seq<byte>, a: nat, b: nat, i: nat, j: nat)
    requires a <= b <= |m| && i <= j <= b - a
    ensures m[a..b][i..j] == m[a + i..a + j]
  {
    var whole := m[a..b];
    var l, r := whole[i..j], m[a + i..a + j];
    assert forall x :: 0 <= x < |l| ==> l[x] == whole[i + x] == m[a + i + x] == r[x];
  }

  /** A write leaves the fields beside it alone. */
  lemma FieldBeside(m: seq<byte>, at: nat, bytes: seq<byte>, i: nat, n: nat)
    requires at + |bytes| <= |m| && i + n <= |m| && (i + n <= at || at + |bytes| <= i)
    ensures Field(Splice(m, at, bytes), i, n) == Field(m, i, n)
  {
    var r := Splice(m, at, bytes);
    SpliceParts(m, at, bytes);
    if i + n <= at {
      assert r[..at] == r[0..at] && m[..at] == m[0..at];
      SliceOfSlice(r, 0, at, i, i + n);
      SliceOfSlice(m, 0, at, i, i + n);
    } else {
      var e := at + |bytes|;
      assert r[e..] == r[e..|m|] && m[e..] == m[e..|m|];
      SliceOfSlice(r, e, |m|, i - e, i - e + n);
      SliceOfSlice(m, e, |m|, i - e, i - e + n);
    }
  }

  /** What is written is what is read, */
  lemma FieldWritten(m: seq<byte>, at: nat, bytes: seq<byte>)
    requires at + |bytes| <= |m|
    ensures Field(Splice(m, at, bytes), at, |bytes|) == bytes
  {
    SpliceParts(m, at, bytes);
  }

  /** also in parts. */
  lemma FieldWithin(m: seq<byte>, at: nat, bytes: seq<byte>, i: nat, n: nat)
    requires at + |bytes| <= |m| && at <= i && i + n <= at + |bytes|
    ensures Field(Splice(m, at, bytes), i, n) == bytes[i - at..i - at + n]
  {
    var r := Splice(m, at, bytes);
    SpliceParts(m, at, bytes);
    SliceOfSlice(r, at, at + |bytes|, i - at, i - at + n);
  }

  /** A part of a field is a field. */
  lemma FieldPart(m: seq<byte>, at: nat, n: nat, i: nat, k: nat)
    requires at + n <= |m| && i + k <= n
    ensures Field(m, at + i, k) == Field(m, at, n)[i..i + k]
  {
    SliceOfSlice(m, at, at + n, i, i + k);
  }

  /** The bytes from position n on. */
  function Behind(m: seq<byte>, n: nat): (b: seq<byte>)
    requires n <= |m|
    ensures |b| == |m| - n
  {
    Field(m, n, |m| - n)
  }

  lemma BehindBeside(m: seq<byte>, at: nat, bytes: seq<byte>, n: nat)
    requires at + |bytes| <= n <= |m|
    ensures Behind(Splice(m, at, bytes), n) == Behind(m, n)
  {
    FieldBeside(m, at, bytes, n, |m| - n);
  }

  lemma BehindSame(m: seq<byte>, w: seq<byte>, n: nat, p: nat)
    requires n <= p <= |m| && |w| == |m| && Behind(m, n) == Behind(w, n)
    ensures Behind(m, p) == Behind(w, p)
  {
    assert Behind(m, p) == Behind(m, n)[p - n..];
    assert Behind(w, p) == Behind(w, n)[p - n..];
  }
}
