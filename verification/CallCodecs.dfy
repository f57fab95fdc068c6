/** The codecs of `poll`, `fcntl`, `setsockopt` and `getsockopt`. */
module CallCodecs {
  import opened Options
  import opened Bytes
  import opened WireBuffer

  // ---------------------------------------------------------------- poll

  datatype Pollfd = Pollfd(fd: int, events: nat, revents: nat)

  ghost predicate IsPollfd(p: Pollfd) {
    IsInt32(p.fd) && p.events < Pow256(2) && p.revents < Pow256(2)
  }

  function PollfdBytes(p: Pollfd): (s: seq<byte>)
    ensures |s| == 8
  {
    PutInt(p.fd) + Put(2, p.events) + Put(2, p.revents)
  }

  function PollfdOf(s: seq<byte>): Pollfd
    requires |s| == 8
  {
    Pollfd(GetInt(s[..4]), Get(s[4..6]), Get(s[6..8]))
  }

  lemma PollfdRoundTrip(p: Pollfd)
    requires IsPollfd(p)
    ensures PollfdOf(PollfdBytes(p)) == p
  {
    var s := PollfdBytes(p);
    assert s[..4] == PutInt(p.fd) && s[4..6] == Put(2, p.events) && s[6..8] == Put(2, p.revents);
    GetPutInt(p.fd);
    GetPut(2, p.events);
    GetPut(2, p.revents);
  }

  function PollfdAt(m: seq<byte>, i: nat): (f: seq<byte>)
    requires 12 + 8 * i + 8 <= |m|
    ensures |f| == 8
  {
    Field(m, 12 + 8 * i, 8)
  }

  ghost predicate HoldsPollfds(m: seq<byte>, fds: seq<Pollfd>, k: nat) {
    && k <= |fds| && 12 + 8 * k <= |m|
    && forall i :: 0 <= i < k ==> PollfdAt(m, i) == PollfdBytes(fds[i])
  }

  /** The image of a descriptor at an offset. */
  ghost predicate WirePollfd(m: seq<byte>, at: nat, p: Pollfd) {
    && at + 8 <= |m| && Field(m, at, 4) == PutInt(p.fd)
    && Field(m, at + 4, 2) == Put(2, p.events) && Field(m, at + 6, 2) == Put(2, p.revents)
  }

  lemma PollfdOnWire(m: seq<byte>, fds: seq<Pollfd>, k: nat, i: nat)
    requires HoldsPollfds(m, fds, k) && i < k
    ensures WirePollfd(m, 12 + 8 * i, fds[i])
  {
    var p, at := fds[i], 12 + 8 * i;
    var f, b := PollfdAt(m, i), PollfdBytes(fds[i]);
    assert f == b;
    FieldPart(m, at, 8, 0, 4);
    FieldPart(m, at, 8, 4, 2);
    FieldPart(m, at, 8, 6, 2);
    assert b[0..4] == PutInt(p.fd);
    assert b[4..6] == Put(2, p.events);
    assert b[6..8] == Put(2, p.revents);
  }

  lemma StorePollfd(m: seq<byte>, fds: seq<Pollfd>, k: nat)
    requires HoldsPollfds(m, fds, k) && k < |fds| && 12 + 8 * k + 8 <= |m|
    ensures var r := Splice(m, 12 + 8 * k, PollfdBytes(fds[k]));
            HoldsPollfds(r, fds, k + 1) && Field(r, 0, 4) == Field(m, 0, 4) && Field(r, 4, 8) == Field(m, 4, 8)
  {
    var at, b := 12 + 8 * k, PollfdBytes(fds[k]);
    var r := Splice(m, at, b);
    FieldBeside(m, at, b, 0, 4);
    FieldBeside(m, at, b, 4, 8);
    FieldWritten(m, at, b);
    forall i | 0 <= i < k + 1
      ensures PollfdAt(r, i) == PollfdBytes(fds[i])
    {
      if i < k {
        FieldBeside(m, at, b, 12 + 8 * i, 8);
      }
    }
  }

  /** `serialize_poll_pollfd`; without a timeout the first four bytes keep what they held. */
  method SerializePoll(msg: array<byte>, fds: seq<Pollfd>, timeout: Option<int>)
    requires 12 + 8 * |fds| <= msg.Length
    modifies msg
    ensures HoldsPollfds(msg[..], fds, |fds|) && Field(msg[..], 4, 8) == Put(8, |fds|)
    ensures Field(msg[..], 0, 4) == if timeout.Some? then PutInt(timeout.value) else old(Field(msg[..], 0, 4))
    ensures forall i :: 0 <= i < |fds| ==> WirePollfd(msg[..], 12 + 8 * i, fds[i])
  {
    hide Splice, Field, WirePollfd;
    if timeout.Some? {
      FieldWritten(msg[..], 0, PutInt(timeout.value));
      Store(msg, 0, PutInt(timeout.value));
    }
    FieldBeside(msg[..], 4, Put(8, |fds|), 0, 4);
    FieldWritten(msg[..], 4, Put(8, |fds|));
    Store(msg, 4, Put(8, |fds|));
    var offset, i := 12, 0;
    while i < |fds|
      invariant 0 <= i <= |fds| && offset == 12 + 8 * i
      invariant HoldsPollfds(msg[..], fds, i) && Field(msg[..], 4, 8) == Put(8, |fds|)
      invariant Field(msg[..], 0, 4) == if timeout.Some? then PutInt(timeout.value) else old(Field(msg[..], 0, 4))
    {
      StorePollfd(msg[..], fds, i);
      Store(msg, offset, PollfdBytes(fds[i]));
      offset, i := offset + 8, i + 1;
    }
    forall j | 0 <= j < |fds|
      ensures WirePollfd(msg[..], 12 + 8 * j, fds[j])
    {
      PollfdOnWire(msg[..], fds, |fds|, j);
    }
  }

  /** `deserialize_poll_pollfd` into a new array. */
  method DeserializePoll(msg: array<byte>) returns (fds: array<Pollfd>, timeout: int)
    requires 12 <= msg.Length && 12 + 8 * Get(Field(msg[..], 4, 8)) <= msg.Length
    ensures fresh(fds) && fds.Length == Get(Field(msg[..], 4, 8)) && timeout == GetInt(Field(msg[..], 0, 4))
    ensures forall i :: 0 <= i < fds.Length ==> fds[i] == PollfdOf(PollfdAt(msg[..], i))
  {
    ghost var m := msg[..];
    assert msg[0..4] == m[0..4] && msg[4..12] == m[4..12];
    timeout := GetInt(msg[0..4]);
    var nfds := Get(msg[4..12]);
    fds := new Pollfd[nfds](_ => Pollfd(0, 0, 0));
    var offset, i := 12, 0;
    while i < nfds
      invariant 0 <= i <= nfds && offset == 12 + 8 * i && msg[..] == m
      invariant forall k :: 0 <= k < i ==> fds[k] == PollfdOf(PollfdAt(m, k))
    {
      assert msg[offset..offset + 8] == PollfdAt(m, i);
      fds[i] := PollfdOf(msg[offset..offset + 8]);
      offset, i := offset + 8, i + 1;
    }
  }

  /** Every list of descriptors that fits the message comes back, with the timeout. */
  method CarryPoll(msg: array<byte>, fds: seq<Pollfd>, timeout: int) returns (fds': array<Pollfd>, timeout': int)
    requires 12 + 8 * |fds| <= msg.Length && |fds| < Pow256(8)
    requires IsInt32(timeout) && forall p :: p in fds ==> IsPollfd(p)
    modifies msg
    ensures fds'[..] == fds && timeout' == timeout
  {
    SerializePoll(msg, fds, Some(timeout));
    PollRoundTrip(msg[..], fds, timeout);
    fds', timeout' := DeserializePoll(msg);
  }

  lemma PollRoundTrip(m: seq<byte>, fds: seq<Pollfd>, timeout: int)
    requires HoldsPollfds(m, fds, |fds|) && Field(m, 4, 8) == Put(8, |fds|) && Field(m, 0, 4) == PutInt(timeout)
    requires |fds| < Pow256(8) && IsInt32(timeout) && forall p :: p in fds ==> IsPollfd(p)
    ensures Get(Field(m, 4, 8)) == |fds| && GetInt(Field(m, 0, 4)) == timeout
    ensures forall i :: 0 <= i < |fds| ==> PollfdOf(PollfdAt(m, i)) == fds[i]
  {
    GetPut(8, |fds|);
    GetPutInt(timeout);
    forall i | 0 <= i < |fds|
      ensures PollfdOf(PollfdAt(m, i)) == fds[i]
    {
      assert fds[i] in fds;
      PollfdRoundTrip(fds[i]);
    }
  }

  // ---------------------------------------------------------------- fcntl

  const F_DUPFD := 0
  const F_GETFD := 1
  const F_SETFD := 2
  const F_GETFL := 3
  const F_SETFL := 4
  const F_GETLK := 5
  const F_SETLK := 6
  const F_SETLKW := 7
  const FLOCK: nat := 32

  /** The bytes of the argument that a command takes: none, an `int`, or a `struct flock`. */
  function ArgSize(cmd: int): (n: nat)
    ensures n == 0 || n == 4 || n == FLOCK
  {
    if cmd == F_SETFD || cmd == F_SETFL || cmd == F_DUPFD then 4
    else if cmd == F_GETLK || cmd == F_SETLK || cmd == F_SETLKW then FLOCK
    else 0
  }

  function Kind(n: nat): int {
    if n == 0 then 0 else if n == 4 then 1 else 2
  }

  /** The message after the encoder. */
  function StoredFcntl(m: seq<byte>, cmd: int, arg: Option<seq<byte>>): (r: seq<byte>)
    requires |m| >= 8 + FLOCK && (arg.Some? ==> |arg.value| >= ArgSize(cmd))
    ensures |r| == |m|
  {
    var m1 := if arg.Some? && ArgSize(cmd) > 0 then Splice(m, 8, arg.value[..ArgSize(cmd)]) else m;
    Splice(Splice(m1, 0, PutInt(cmd)), 4, PutInt(Kind(ArgSize(cmd))))
  }

  ghost predicate HoldsFcntl(m: seq<byte>, before: seq<byte>, cmd: int, arg: Option<seq<byte>>) {
    && |m| == |before| >= 8 + FLOCK
    && Field(m, 0, 4) == PutInt(cmd) && Field(m, 4, 4) == PutInt(Kind(ArgSize(cmd)))
    && (arg.Some? ==> |arg.value| >= ArgSize(cmd) && Field(m, 8, ArgSize(cmd)) == arg.value[..ArgSize(cmd)])
    && (arg.None? ==> Field(m, 8, ArgSize(cmd)) == Field(before, 8, ArgSize(cmd)))
  }

  lemma StoredFcntlHolds(m: seq<byte>, cmd: int, arg: Option<seq<byte>>)
    requires |m| >= 8 + FLOCK && (arg.Some? ==> |arg.value| >= ArgSize(cmd))
    ensures HoldsFcntl(StoredFcntl(m, cmd, arg), m, cmd, arg)
  {
    hide Splice, Field;
    var n, kind := ArgSize(cmd), PutInt(Kind(ArgSize(cmd)));
    var m1 := if arg.Some? && n > 0 then Splice(m, 8, arg.value[..n]) else m;
    var m2 := Splice(m1, 0, PutInt(cmd));
    if arg.Some? && n > 0 {
      FieldWritten(m, 8, arg.value[..n]);
    }
    FieldWritten(m1, 0, PutInt(cmd));
    FieldWritten(m2, 4, kind);
    FieldBeside(m1, 0, PutInt(cmd), 8, n);
    FieldBeside(m2, 4, kind, 8, n);
    FieldBeside(m2, 4, kind, 0, 4);
  }

  /** `serialize_fcntl_dt`; `arg` is the memory behind the pointer. A missing argument leaves what the
      message held before. */
  method SerializeFcntl(msg: array<byte>, cmd: int, arg: Option<seq<byte>>)
    requires msg.Length >= 8 + FLOCK && (arg.Some? ==> |arg.value| >= ArgSize(cmd))
    modifies msg
    ensures msg[..] == StoredFcntl(old(msg[..]), cmd, arg) && HoldsFcntl(msg[..], old(msg[..]), cmd, arg)
    ensures Field(msg[..], 4, 4) == PutInt(if cmd in {0, 2, 4} then 1 else if cmd in {5, 6, 7} then 2 else 0)
    ensures cmd in {0, 2, 4} && arg.Some? ==> |arg.value| >= 4 && Field(msg[..], 8, 4) == arg.value[..4]
    ensures cmd in {5, 6, 7} && arg.Some? ==> |arg.value| >= 32 && Field(msg[..], 8, 32) == arg.value[..32]
  {
    StoredFcntlHolds(msg[..], cmd, arg);
    var flag;
    if cmd == F_GETFD || cmd == F_GETFL {
      flag := 0;
    } else if cmd == F_SETFD || cmd == F_SETFL || cmd == F_DUPFD {
      flag := 1;
      if arg.Some? {
        Store(msg, 8, arg.value[..4]);
      }
    } else if cmd == F_GETLK || cmd == F_SETLK || cmd == F_SETLKW {
      flag := 2;
      if arg.Some? {
        Store(msg, 8, arg.value[..FLOCK]);
      }
    } else {
      flag := 0;
    }
    Store(msg, 0, PutInt(cmd));
    Store(msg, 4, PutInt(flag));
  }

  /** What the decoder of the SmartNIC reads: command, flag and the argument that the flag announces. */
  function DecodeFcntl(m: seq<byte>): (int, int, Option<seq<byte>>)
    requires |m| >= 8 + FLOCK
  {
    var flag := GetInt(Field(m, 4, 4));
    (GetInt(Field(m, 0, 4)), flag,
     if flag == 1 then Some(Field(m, 8, 4)) else if flag == 2 then Some(Field(m, 8, FLOCK)) else None)
  }

  /** `deserialize_fcntl_dt` of the SmartNIC: allocates the argument that the flag announces. */
  method DeserializeFcntl(msg: array<byte>) returns (cmd: int, flag: int, arg: Option<seq<byte>>)
    requires msg.Length >= 8 + FLOCK
    ensures (cmd, flag, arg) == DecodeFcntl(msg[..])
  {
    ghost var m := msg[..];
    assert msg[0..4] == m[0..4] && msg[4..8] == m[4..8] && msg[8..12] == m[8..12] && msg[8..8 + FLOCK] == m[8..8 + FLOCK];
    cmd, flag := GetInt(msg[0..4]), GetInt(msg[4..8]);
    if flag == 1 {
      arg := Some(msg[8..12]);
    } else if flag == 2 {
      arg := Some(msg[8..8 + FLOCK]);
    } else {
      arg := None;
    }
  }

  /** The command comes back; an argument comes back, cut to the size that the command takes, exactly
      for the commands that take one, and the argument of an unknown command is dropped. */
  method CarryFcntl(msg: array<byte>, cmd: int, arg: Option<seq<byte>>) returns (cmd': int, arg': Option<seq<byte>>)
    requires msg.Length >= 8 + FLOCK && (arg.Some? ==> |arg.value| >= ArgSize(cmd)) && IsInt32(cmd)
    modifies msg
    ensures cmd' == cmd
    ensures arg.Some? && cmd in {0, 2, 4} ==> |arg.value| >= 4 && arg' == Some(arg.value[..4])
    ensures arg.Some? && cmd in {5, 6, 7} ==> |arg.value| >= 32 && arg' == Some(arg.value[..32])
    ensures arg.None? && cmd in {0, 2, 4} ==> arg' == Some(old(Field(msg[..], 8, 4)))
    ensures arg.None? && cmd in {5, 6, 7} ==> arg' == Some(old(Field(msg[..], 8, 32)))
    ensures cmd !in {0, 2, 4, 5, 6, 7} ==> arg' == None
  {
    SerializeFcntl(msg, cmd, arg);
    FcntlRoundTrip(msg[..], old(msg[..]), cmd, arg);
    var flag;
    cmd', flag, arg' := DeserializeFcntl(msg);
  }

  /** The decoder finds the command, and an argument exactly for the commands that take one. */
  lemma FcntlRoundTrip(m: seq<byte>, before: seq<byte>, cmd: int, arg: Option<seq<byte>>)
    requires HoldsFcntl(m, before, cmd, arg) && IsInt32(cmd)
    ensures DecodeFcntl(m) == (cmd, Kind(ArgSize(cmd)), if ArgSize(cmd) > 0 then Some(Field(m, 8, ArgSize(cmd))) else None)
  {
    GetPutInt(cmd);
    GetPutInt(Kind(ArgSize(cmd)));
  }

  // ---------------------------------------------------------------- setsockopt and getsockopt

  datatype Sockopt = Sockopt(level: int, optname: int, optval: seq<byte>)

  ghost predicate IsSockopt(o: Sockopt) {
    IsInt32(o.level) && IsInt32(o.optname) && |o.optval| < Pow256(4)
  }

  ghost predicate HoldsSockopt(m: seq<byte>, o: Sockopt) {
    && |m| >= 12 + |o.optval|
    && Field(m, 0, 4) == PutInt(o.level) && Field(m, 4, 4) == PutInt(o.optname)
    && Field(m, 8, 4) == Put(4, |o.optval|) && Field(m, 12, |o.optval|) == o.optval
  }

  /** `serialize_sockopt_dt`. */
  method SerializeSockopt(msg: array<byte>, o: Sockopt)
    requires 12 + |o.optval| <= msg.Length
    modifies msg
    ensures HoldsSockopt(msg[..], o)
  {
    hide Splice, Field;
    ghost var m0 := msg[..];
    Store(msg, 0, PutInt(o.level));
    ghost var m1 := msg[..];
    Store(msg, 4, PutInt(o.optname));
    ghost var m2 := msg[..];
    Store(msg, 8, Put(4, |o.optval|));
    ghost var m3 := msg[..];
    if |o.optval| > 0 {
      Store(msg, 12, o.optval);
      FieldWritten(m3, 12, o.optval);
      FieldBeside(m3, 12, o.optval, 0, 4);
      FieldBeside(m3, 12, o.optval, 4, 4);
      FieldBeside(m3, 12, o.optval, 8, 4);
    }
    FieldWritten(m0, 0, PutInt(o.level));
    FieldWritten(m1, 4, PutInt(o.optname));
    FieldWritten(m2, 8, Put(4, |o.optval|));
    FieldBeside(m1, 4, PutInt(o.optname), 0, 4);
    FieldBeside(m2, 8, Put(4, |o.optval|), 0, 4);
    FieldBeside(m2, 8, Put(4, |o.optval|), 4, 4);
  }

  /** `deserialize_sockopt_dt`; a length of zero leaves the value alone. */
  method DeserializeSockopt(msg: array<byte>) returns (level: int, optname: int, optval: Option<seq<byte>>)
    requires msg.Length >= 12 && 12 + Get(Field(msg[..], 8, 4)) <= msg.Length
    ensures level == GetInt(Field(msg[..], 0, 4)) && optname == GetInt(Field(msg[..], 4, 4))
    ensures var n := Get(Field(msg[..], 8, 4));
            optval == if n > 0 then Some(Field(msg[..], 12, n)) else None
  {
    ghost var m := msg[..];
    assert msg[0..4] == m[0..4] && msg[4..8] == m[4..8] && msg[8..12] == m[8..12];
    level, optname := GetInt(msg[0..4]), GetInt(msg[4..8]);
    var n := Get(msg[8..12]);
    if n > 0 {
      assert msg[12..12 + n] == m[12..12 + n];
      optval := Some(msg[12..12 + n]);
    } else {
      optval := None;
    }
  }

  method CarrySockopt(msg: array<byte>, o: Sockopt) returns (level: int, optname: int, optval: Option<seq<byte>>)
    requires 12 + |o.optval| <= msg.Length && IsSockopt(o)
    modifies msg
    ensures level == o.level && optname == o.optname
    ensures optval == if o.optval == [] then None else Some(o.optval)
  {
    SerializeSockopt(msg, o);
    SockoptRoundTrip(msg[..], o);
    level, optname, optval := DeserializeSockopt(msg);
  }

  lemma SockoptRoundTrip(m: seq<byte>, o: Sockopt)
    requires HoldsSockopt(m, o) && IsSockopt(o)
    ensures GetInt(Field(m, 0, 4)) == o.level && GetInt(Field(m, 4, 4)) == o.optname
    ensures Get(Field(m, 8, 4)) == |o.optval| && Field(m, 12, Get(Field(m, 8, 4))) == o.optval
  {
    GetPutInt(o.level);
    GetPutInt(o.optname);
    GetPut(4, |o.optval|);
  }
}
