/** The codec of `select`: three descriptor sets and a timeout, each of which may be absent, behind a
    flag whose decimal digits say which are there. The flag takes four bytes, one was reserved. */
module SelectCodec {
  import opened Options
  import opened Bytes
  import opened WireBuffer

  const FD_SET: nat := 128
  const TIMEVAL: nat := 16
  const READ_AT: nat := 5
  const WRITE_AT: nat := 5 + 128
  const EXCEPT_AT: nat := 5 + 256
  const TIMEOUT_AT: nat := 5 + 384
  const SELECT_SIZE: nat := 5 + 384 + 16

  type Image = Option<seq<byte>>

  /** The pointers of a `select` call, by the bytes behind them. */
  datatype Args = Args(read: Image, write: Image, except: Image, timeout: Image)

  predicate IsArgs(a: Args) {
    && (a.read.Some? ==> |a.read.value| == FD_SET) && (a.write.Some? ==> |a.write.value| == FD_SET)
    && (a.except.Some? ==> |a.except.value| == FD_SET) && (a.timeout.Some? ==> |a.timeout.value| == TIMEVAL)
  }

  function OrZeros(i: Image, n: nat): seq<byte> {
    if i.Some? then i.value else Zeros(n)
  }

  function Flag(a: Args): int {
    (if a.read.Some? then 1000 else 0) + (if a.write.Some? then 100 else 0) +
    (if a.except.Some? then 10 else 0) + (if a.timeout.Some? then 1 else 0)
  }

  /** Division of C, towards zero. */
  function CDiv(x: int, y: nat): int
    requires y > 0
  {
    if x >= 0 then x / y else -((-x) / y)
  }

  /** The message that holds a call: the flag is written last and covers the first three bytes of
      the read set. */
  ghost predicate HoldsSelect(m: seq<byte>, nfds: int, a: Args) {
    && |m| >= SELECT_SIZE && IsArgs(a)
    && Field(m, 0, 4) == PutInt(nfds)
    && Field(m, 4, 4) == PutInt(Flag(a))
    && Field(m, READ_AT + 3, FD_SET - 3) == OrZeros(a.read, FD_SET)[3..]
    && Field(m, WRITE_AT, FD_SET) == OrZeros(a.write, FD_SET)
    && Field(m, EXCEPT_AT, FD_SET) == OrZeros(a.except, FD_SET)
    && Field(m, TIMEOUT_AT, TIMEVAL) == OrZeros(a.timeout, TIMEVAL)
  }

  /** `serialize_select_fd_set`. */
  method SerializeSelect(msg: array<byte>, nfds: int, a: Args)
    requires msg.Length >= SELECT_SIZE && IsArgs(a)
    modifies msg
    ensures msg[..] == Stored(old(msg[..]), nfds, a) && HoldsSelect(msg[..], nfds, a)
    ensures Behind(msg[..], SELECT_SIZE) == old(Behind(msg[..], SELECT_SIZE))
    ensures Field(msg[..], 0, 4) == PutInt(nfds)
    ensures Field(msg[..], 4, 4) == PutInt((if a.read.Some? then 1000 else 0) + (if a.write.Some? then 100 else 0)
                                           + (if a.except.Some? then 10 else 0) + (if a.timeout.Some? then 1 else 0))
    ensures a.read.Some? ==> |a.read.value| == 128 && Field(msg[..], 8, 125) == a.read.value[3..]
    ensures a.write.Some? ==> Field(msg[..], 133, 128) == a.write.value
    ensures a.except.Some? ==> Field(msg[..], 261, 128) == a.except.value
    ensures a.timeout.Some? ==> Field(msg[..], 389, 16) == a.timeout.value
  {
    hide Splice, Field, Behind;
    ghost var m0 := msg[..];
    Store(msg, 0, PutInt(nfds));
    var offset, flag := READ_AT, 0;
    StoreImage(msg, offset, a.read, FD_SET);
    flag := flag + if a.read.Some? then 1000 else 0;
    offset := offset + FD_SET;
    StoreImage(msg, offset, a.write, FD_SET);
    flag := flag + if a.write.Some? then 100 else 0;
    offset := offset + FD_SET;
    StoreImage(msg, offset, a.except, FD_SET);
    flag := flag + if a.except.Some? then 10 else 0;
    offset := offset + FD_SET;
    StoreImage(msg, offset, a.timeout, TIMEVAL);
    flag := flag + if a.timeout.Some? then 1 else 0;
    Store(msg, 4, PutInt(flag));
    StoredSelect(m0, nfds, a);
    StoredBeyond(m0, nfds, a);
  }

  /** One argument: its bytes, or zeros for a NULL pointer. */
  method StoreImage(msg: array<byte>, at: nat, i: Image, n: nat)
    requires at + n <= msg.Length && (i.Some? ==> |i.value| == n)
    modifies msg
    ensures msg[..] == Splice(old(msg[..]), at, OrZeros(i, n))
  {
    if i.Some? {
      Store(msg, at, i.value);
    } else {
      Store(msg, at, Zeros(n));
    }
  }

  /** The writes of the encoder, in its order. */
  function Stored(m: seq<byte>, nfds: int, a: Args): (r: seq<byte>)
    requires |m| >= SELECT_SIZE && IsArgs(a)
    ensures |r| == |m|
  {
    Splice(Splice(Splice(Splice(Splice(Splice(m, 0, PutInt(nfds)),
      READ_AT, OrZeros(a.read, FD_SET)), WRITE_AT, OrZeros(a.write, FD_SET)),
      EXCEPT_AT, OrZeros(a.except, FD_SET)), TIMEOUT_AT, OrZeros(a.timeout, TIMEVAL)), 4, PutInt(Flag(a)))
  }

  lemma StoredSelect(m: seq<byte>, nfds: int, a: Args)
    requires |m| >= SELECT_SIZE && IsArgs(a)
    ensures HoldsSelect(Stored(m, nfds, a), nfds, a)
  {
    hide Splice, Field;
    var r, w, e, t := OrZeros(a.read, FD_SET), OrZeros(a.write, FD_SET), OrZeros(a.except, FD_SET), OrZeros(a.timeout, TIMEVAL);
    var n, f := PutInt(nfds), PutInt(Flag(a));
    var m1 := Splice(m, 0, n);
    var m2 := Splice(m1, READ_AT, r);
    var m3 := Splice(m2, WRITE_AT, w);
    var m4 := Splice(m3, EXCEPT_AT, e);
    var m5 := Splice(m4, TIMEOUT_AT, t);
    FieldBeside(m1, READ_AT, r, 0, 4);
    FieldBeside(m2, WRITE_AT, w, 0, 4);
    FieldBeside(m3, EXCEPT_AT, e, 0, 4);
    FieldBeside(m4, TIMEOUT_AT, t, 0, 4);
    FieldBeside(m5, 4, f, 0, 4);
    FieldWritten(m, 0, n);
    FieldWithin(m1, READ_AT, r, READ_AT + 3, FD_SET - 3);
    FieldWritten(m2, WRITE_AT, w);
    FieldWritten(m3, EXCEPT_AT, e);
    FieldWritten(m4, TIMEOUT_AT, t);
    FieldWritten(m5, 4, f);
    FieldBeside(m2, WRITE_AT, w, READ_AT + 3, FD_SET - 3);
    FieldBeside(m3, EXCEPT_AT, e, READ_AT + 3, FD_SET - 3);
    FieldBeside(m4, TIMEOUT_AT, t, READ_AT + 3, FD_SET - 3);
    FieldBeside(m5, 4, f, READ_AT + 3, FD_SET - 3);
    FieldBeside(m3, EXCEPT_AT, e, WRITE_AT, FD_SET);
    FieldBeside(m4, TIMEOUT_AT, t, WRITE_AT, FD_SET);
    FieldBeside(m5, 4, f, WRITE_AT, FD_SET);
    FieldBeside(m4, TIMEOUT_AT, t, EXCEPT_AT, FD_SET);
    FieldBeside(m5, 4, f, EXCEPT_AT, FD_SET);
    FieldBeside(m5, 4, f, TIMEOUT_AT, TIMEVAL);
  }

  lemma StoredBeyond(m: seq<byte>, nfds: int, a: Args)
    requires |m| >= SELECT_SIZE && IsArgs(a)
    ensures Behind(Stored(m, nfds, a), SELECT_SIZE) == Behind(m, SELECT_SIZE)
  {
    hide Splice, Behind;
    var m1 := Splice(m, 0, PutInt(nfds));
    var m2 := Splice(m1, READ_AT, OrZeros(a.read, FD_SET));
    var m3 := Splice(m2, WRITE_AT, OrZeros(a.write, FD_SET));
    var m4 := Splice(m3, EXCEPT_AT, OrZeros(a.except, FD_SET));
    var m5 := Splice(m4, TIMEOUT_AT, OrZeros(a.timeout, TIMEVAL));
    BehindBeside(m, 0, PutInt(nfds), SELECT_SIZE);
    BehindBeside(m1, READ_AT, OrZeros(a.read, FD_SET), SELECT_SIZE);
    BehindBeside(m2, WRITE_AT, OrZeros(a.write, FD_SET), SELECT_SIZE);
    BehindBeside(m3, EXCEPT_AT, OrZeros(a.except, FD_SET), SELECT_SIZE);
    BehindBeside(m4, TIMEOUT_AT, OrZeros(a.timeout, TIMEVAL), SELECT_SIZE);
    BehindBeside(m5, 4, PutInt(Flag(a)), SELECT_SIZE);
  }

  // ---------------------------------------------------------------- decoding

  /** Which out-parameters of the decoder are not NULL. */
  datatype Wants = Wants(read: bool, write: bool, except: bool, timeout: bool)

  /** `deserialize_select_fd_set`: what it copies to its out-parameters; None where it copies nothing. */
  function DecodeSelect(m: seq<byte>, want: Wants): (int, Args)
    requires |m| >= SELECT_SIZE
  {
    var nfds := GetInt(Field(m, 0, 4));
    var f0 := GetInt(Field(m, 4, 4));
    var (f1, f2, f3) := (f0 - 1000, f0 - 1100, f0 - 1110);
    if f0 == 0 then (nfds, Args(None, None, None, None)) else
    (nfds, Args(if CDiv(f0, 1000) != 1 || !want.read then None else Some(Field(m, READ_AT, FD_SET)),
                if CDiv(f1, 100) != 1 || !want.write then None else Some(Field(m, WRITE_AT, FD_SET)),
                if CDiv(f2, 10) != 1 || !want.except then None else Some(Field(m, EXCEPT_AT, FD_SET)),
                if f3 != 1 || !want.timeout then None else Some(Field(m, TIMEOUT_AT, TIMEVAL))))
  }

  /** `deserialize_select_fd_set`, with its running flag and offset. */
  method DeserializeSelect(msg: array<byte>, want: Wants) returns (nfds: int, out: Args)
    requires msg.Length >= SELECT_SIZE
    ensures (nfds, out) == DecodeSelect(msg[..], want)
  {
    out := Args(None, None, None, None);
    ghost var m := msg[..];
    assert msg[0..4] == m[0..4] && msg[4..8] == m[4..8];
    nfds := GetInt(msg[0..4]);
    var flag := GetInt(msg[4..8]);
    if flag == 0 {
      return;
    }
    var offset := READ_AT;
    if CDiv(flag, 1000) == 1 && want.read {
      assert msg[offset..offset + FD_SET] == m[offset..offset + FD_SET];
      out := out.(read := Some(msg[offset..offset + FD_SET]));
    }
    offset, flag := offset + FD_SET, flag - 1000;
    if CDiv(flag, 100) == 1 && want.write {
      assert msg[offset..offset + FD_SET] == m[offset..offset + FD_SET];
      out := out.(write := Some(msg[offset..offset + FD_SET]));
    }
    offset, flag := offset + FD_SET, flag - 100;
    if CDiv(flag, 10) == 1 && want.except {
      assert msg[offset..offset + FD_SET] == m[offset..offset + FD_SET];
      out := out.(except := Some(msg[offset..offset + FD_SET]));
    }
    offset, flag := offset + FD_SET, flag - 10;
    if flag == 1 && want.timeout {
      assert msg[offset..offset + TIMEVAL] == m[offset..offset + TIMEVAL];
      out := out.(timeout := Some(msg[offset..offset + TIMEVAL]));
    }
  }

  /** How many of read, write, except and timeout are present before the first that is absent. */
  function Lead(a: Args): nat {
    if a.read.None? then 0 else if a.write.None? then 1 else
    if a.except.None? then 2 else if a.timeout.None? then 3 else 4
  }

  /** The decimal digits of the flag, read by truncating divisions, give the leading present ones:
      after the first absent one the running value stays negative. */
  lemma FlagDigits(a: Args)
    ensures IsInt32(Flag(a)) && (Flag(a) == 0 ==> Lead(a) == 0)
    ensures CDiv(Flag(a), 1000) == 1 <==> Lead(a) >= 1
    ensures CDiv(Flag(a) - 1000, 100) == 1 <==> Lead(a) >= 2
    ensures CDiv(Flag(a) - 1100, 10) == 1 <==> Lead(a) >= 3
    ensures Flag(a) - 1110 == 1 <==> Lead(a) >= 4
  {
  }

  /** The second to fourth byte of the flag, which lie in the read set. */
  lemma FlagBytes(a: Args)
    requires a.read.Some?
    ensures PutInt(Flag(a))[1..] == [if a.write.Some? then 4 else 3, 0, 0]
  {
    var f := Flag(a);
    assert Put(4, f) == [f % 256] + Put(3, f / 256);
    assert Put(3, f / 256) == [f / 256] + Put(2, 0);
    assert Put(2, 0) == [0] + Put(1, 0);
    assert Put(1, 0) == [0] + Put(0, 0);
  }

  ghost predicate Restores(got: Image, present: bool, wanted: bool, value: seq<byte>) {
    got == if present && wanted then Some(value) else None
  }

  /** The exact meaning of the codec: nfds comes back; exactly the longest present prefix of read,
      write, except and timeout comes back, as far as it is asked for; write, except and timeout come
      back byte by byte, of the read set all but the first three bytes. */
  lemma SelectMeaning(m: seq<byte>, nfds: int, a: Args, want: Wants)
    requires HoldsSelect(m, nfds, a) && IsInt32(nfds)
    ensures var (n, got) := DecodeSelect(m, want);
            && n == nfds
            && Restores(got.read, Lead(a) >= 1, want.read, ReadImage(a))
            && Restores(got.write, Lead(a) >= 2, want.write, OrZeros(a.write, FD_SET))
            && Restores(got.except, Lead(a) >= 3, want.except, OrZeros(a.except, FD_SET))
            && Restores(got.timeout, Lead(a) >= 4, want.timeout, OrZeros(a.timeout, TIMEVAL))
  {
    GetPutInt(nfds);
    FlagDigits(a);
    GetPutInt(Flag(a));
    if Lead(a) >= 1 {
      FlagBytes(a);
      assert Field(m, 4, 4)[1..] == m[5..8];
      assert Field(m, READ_AT, FD_SET) == m[5..8] + Field(m, READ_AT + 3, FD_SET - 3);
    }
  }

  /** The way of a call from one side to the other. */
  method CarrySelect(msg: array<byte>, nfds: int, a: Args, want: Wants) returns (n: int, got: Args)
    requires msg.Length >= SELECT_SIZE && IsArgs(a) && IsInt32(nfds)
    modifies msg
    ensures n == nfds
    ensures Restores(got.read, Lead(a) >= 1, want.read, ReadImage(a))
    ensures Restores(got.write, Lead(a) >= 2, want.write, OrZeros(a.write, FD_SET))
    ensures Restores(got.except, Lead(a) >= 3, want.except, OrZeros(a.except, FD_SET))
    ensures Restores(got.timeout, Lead(a) >= 4, want.timeout, OrZeros(a.timeout, TIMEVAL))
  {
    SerializeSelect(msg, nfds, a);
    SelectMeaning(msg[..], nfds, a, want);
    n, got := DeserializeSelect(msg, want);
  }

  /** What becomes of a read set. */
  function ReadImage(a: Args): seq<byte>
    requires IsArgs(a)
  {
    [if a.write.Some? then 4 else 3, 0, 0] + OrZeros(a.read, FD_SET)[3..]
  }

  predicate FdIsSet(s: seq<byte>, fd: nat)
    requires fd < 8 * |s|
  {
    s[fd / 8] / Weight(fd % 8) % 2 == 1
  }

  function Weight(bit: nat): (w: nat)
    ensures w > 0
  {
    if bit == 0 then 1 else 2 * Weight(bit - 1)
  }

  /** In terms of descriptors: those from 24 on arrive, and of those below 24 the other side sees
      exactly number 2, or numbers 0 and 1 when there is no write set, whatever was asked for. */
  lemma ReadSetMeaning(a: Args, fd: nat)
    requires IsArgs(a) && a.read.Some? && fd < 8 * FD_SET
    ensures |ReadImage(a)| == FD_SET
    ensures fd >= 24 ==> (FdIsSet(ReadImage(a), fd) <==> FdIsSet(a.read.value, fd))
    ensures fd < 24 ==> (FdIsSet(ReadImage(a), fd) <==> if a.write.Some? then fd == 2 else fd <= 1)
  {
    var i := fd / 8;
    if fd >= 24 {
      assert ReadImage(a)[i] == a.read.value[3..][i - 3];
    } else {
      assert ReadImage(a)[i] == [if a.write.Some? then 4 else 3, 0, 0][i];
      if fd < 8 {
        Weights();
      }
    }
  }

  lemma Weights()
    ensures Weight(0) == 1 && Weight(1) == 2 && Weight(2) == 4 && Weight(3) == 8
    ensures Weight(4) == 16 && Weight(5) == 32 && Weight(6) == 64 && Weight(7) == 128
  {
    assert Weight(2) == 4;
    assert Weight(3) == 8;
    assert Weight(4) == 16;
    assert Weight(5) == 32;
    assert Weight(6) == 64;
  }
}
