/** The two messages that cross the wire, the kernel calls behind them, and the pure parts of
    both end points: what `set_req_sock` writes into the request and reads out of the reply,
    and what a server handler does to the reply around its system call. */
module Messages {
  import opened Options
  import opened Bytes
  import opened WireBuffer
  import SelectCodec
  import CallCodecs

  const BUFFER_SIZE: nat := 600000
  const HEADER_SIZE: nat := 12

  datatype Op =
    | SOCKET | CLOSE | READ | WRITE | BIND | LISTEN | ACCEPT | CONNECT | SELECT
    | EPOLL_CREATE1 | EPOLL_CTL | EPOLL_WAIT | POLL | FCNTL | SETSOCKOPT | GETSOCKOPT
    | GETPEERNAME | GETSOCKNAME

  /** The arguments of the two calls whose handlers do not pass on what they decode: SELECT, and FCNTL
      with the memory behind its third argument (the `int` itself, or a lock, or NULL). */
  datatype Details =
    | Plain
    | Select(nfds: int, sets: SelectCodec.Args)
    | Fcntl(cmd: int, arg: Option<seq<byte>>)

  /** A call of `set_req_sock`. `payload` is the message of a WRITE, or the argument block that
      the hook has already serialized into `req.data` for the other calls; SELECT and FCNTL bring
      their arguments in `details`; `hasBuf` says that the caller passed a buffer for a READ. */
  datatype Call = Call(op: Op, fd: int, bufSz: nat, port: nat, payload: seq<byte>, hasBuf: bool, details: Details)

  datatype ReqMsg = ReqMsg(op: Op, bufSz: nat, port: nat, data: seq<byte>)
  datatype RtnMsg = RtnMsg(errno: int, value: int, data: seq<byte>)

  predicate WellSized(r: RtnMsg) {
    |r.data| == BUFFER_SIZE
  }

  // ---------------------------------------------------------------- system calls

  /** The third argument of `fcntl` as the kernel sees it: none, a number, or a lock in memory. */
  datatype Third = Nothing | Number(n: int) | Lock(bytes: Option<seq<byte>>)

  datatype SysDetails =
    | NoDetails
    | SelectCall(nfds: int, sets: SelectCodec.Args)
    | FcntlCall(cmd: int, third: Third)

  /** A system call with the arguments it depends on, and its answer. The payload of an answer is
      the output of the call as the handler would encode it for the reply. */
  datatype Sys = Sys(op: Op, fd: int, len: int, port: nat, data: seq<byte>, details: SysDetails)
  datatype Answer = Answer(value: int, errno: int, payload: seq<byte>)

  /** A deterministic kernel: an initial state and a step function. */
  datatype Kernel<!S> = Kernel(init: S, step: (S, Sys) -> (S, Answer))

  /** The calls whose handler leaves `rtn_value` alone. */
  predicate IsSockopt(op: Op) {
    op == SETSOCKOPT || op == GETSOCKOPT
  }

  /** When a handler stores an output block in `rtn.data`. */
  predicate WritesPayload(op: Op, value: int) {
    match op
    case READ => value > 0
    case SELECT => value > 0
    case EPOLL_WAIT | POLL | GETSOCKOPT | GETPEERNAME | GETSOCKNAME => value >= 0
    case _ => false
  }

  /** What a POSIX kernel promises about an answer: -1 on failure, and never more bytes than were
      asked for. */
  predicate AnswerOk(sys: Sys, a: Answer) {
    && -1 <= a.value < 0x8000_0000
    && |a.payload| <= BUFFER_SIZE
    && (sys.op in {READ, WRITE} && sys.len >= 0 ==> a.value <= sys.len)
    && (sys.op == READ ==> |a.payload| == if a.value > 0 then Min(a.value, BUFFER_SIZE) else 0)
  }

  /** Nothing more is asked of a kernel. */
  lemma AnswersAreFree(sys: Sys, a: Answer)
    requires -1 <= a.value < 0x8000_0000 && |a.payload| <= 600000
    requires sys.op == WRITE ==> sys.len < 0 || a.value <= sys.len
    requires sys.op == READ ==> |a.payload| == a.value <= sys.len || (a.value <= 0 && sys.len >= 0 && a.payload == [])
    ensures AnswerOk(sys, a)
  {
  }

  ghost predicate KernelOk<S(!new)>(k: Kernel<S>) {
    forall st, sys :: AnswerOk(sys, k.step(st, sys).1)
  }

  // ---------------------------------------------------------------- argument blocks

  /** How many bytes of `data` the decoder of an operation looks at. The argument blocks are
      self-delimiting: POLL, FCNTL and the socket options carry a count or a kind inside. */
  function Extent(op: Op, data: seq<byte>): nat {
    match op
    case EPOLL_CREATE1 => 4
    case EPOLL_CTL => 24
    case EPOLL_WAIT => 16
    case POLL => if |data| < 12 then 12 else 12 + 8 * Get(data[4..12])
    case FCNTL => if |data| < 8 then 8 else
                    var flag := Get(data[4..8]);
                    if flag == 1 then 12 else if flag == 2 then 40 else 8
    case SETSOCKOPT | GETSOCKOPT => if |data| < 12 then 12 else 12 + Get(data[8..12])
    case GETPEERNAME | GETSOCKNAME => 20
    case _ => 0
  }

  /** The block at the front of a buffer. */
  function Block(op: Op, data: seq<byte>): seq<byte> {
    data[..Min(Extent(op, data), |data|)]
  }

  /** A call as the hooks make it: a WRITE brings as many bytes as it announces, SELECT and FCNTL
      bring their arguments, every other call exactly the argument block of its operation. */
  predicate WellFormed(c: Call) {
    match c.op
    case WRITE => |c.payload| == c.bufSz
    case SELECT => c.details.Select? && IsInt32(c.details.nfds) && SelectCodec.IsArgs(c.details.sets)
    case FCNTL => c.details.Fcntl? && IsInt32(c.details.cmd) && IsArg(c.details.cmd, c.details.arg)
    case _ => |c.payload| == Extent(c.op, c.payload) <= BUFFER_SIZE
  }

  /** Lock commands bring a lock or NULL, the others an `int`. */
  predicate IsArg(cmd: int, arg: Option<seq<byte>>) {
    if CallCodecs.ArgSize(cmd) == CallCodecs.FLOCK then arg.Some? ==> |arg.value| == CallCodecs.FLOCK
    else arg.Some? && |arg.value| == 4
  }

  /** The size bound under which a READ or WRITE fits one message. */
  predicate InBound(c: Call) {
    c.op in {READ, WRITE} ==> c.bufSz < BUFFER_SIZE - HEADER_SIZE
  }

  lemma BlockOfPayload(op: Op, payload: seq<byte>, rest: seq<byte>)
    requires |payload| == Extent(op, payload)
    ensures Block(op, payload + rest) == payload
  {
    var data := payload + rest;
    if op == POLL {
      assert data[4..12] == payload[4..12];
    } else if op == FCNTL {
      assert data[4..8] == payload[4..8];
    } else if IsSockopt(op) {
      assert data[8..12] == payload[8..12];
    }
  }

  /** The argument blocks delimit themselves: a reader of the message finds out from its first bytes
      how long the block is that the encoder wrote. */
  lemma PollDelimits(m: seq<byte>, fds: seq<CallCodecs.Pollfd>)
    requires CallCodecs.HoldsPollfds(m, fds, |fds|) && Field(m, 4, 8) == Put(8, |fds|) && |fds| < Pow256(8)
    ensures Extent(POLL, m) == 12 + 8 * |fds|
  {
    GetPut(8, |fds|);
  }

  lemma FcntlDelimits(m: seq<byte>, before: seq<byte>, cmd: int, arg: Option<seq<byte>>)
    requires CallCodecs.HoldsFcntl(m, before, cmd, arg)
    ensures Extent(FCNTL, m) == if cmd in {0, 2, 4} then 12 else if cmd in {5, 6, 7} then 40 else 8
  {
    var kind := CallCodecs.Kind(CallCodecs.ArgSize(cmd));
    Pow256Values();
    GetPut(4, kind);
    hide Get, Put, Pow256;
    assert kind % 0x1_0000_0000 == kind;
    assert m[4..8] == Put(4, kind);
  }

  lemma SockoptDelimits(m: seq<byte>, o: CallCodecs.Sockopt)
    requires CallCodecs.HoldsSockopt(m, o) && |o.optval| < Pow256(4)
    ensures Extent(SETSOCKOPT, m) == Extent(GETSOCKOPT, m) == 12 + |o.optval|
  {
    GetPut(4, |o.optval|);
  }

  // ---------------------------------------------------------------- the host side

  /** How much of a WRITE's message is copied into the request. */
  function CopyLength(bufSz: nat): nat {
    if HEADER_SIZE + bufSz < BUFFER_SIZE then bufSz else BUFFER_SIZE - 2 * HEADER_SIZE
  }

  /** The request buffer when it is posted: old contents show through where nothing is written. */
  function Fill(old_: seq<byte>, c: Call): (r: ReqMsg)
    requires |old_| == BUFFER_SIZE && WellFormed(c)
    ensures |r.data| == BUFFER_SIZE && r.op == c.op
  {
    var data := match c.op
      case WRITE => Overlay(old_, c.payload[..CopyLength(c.bufSz)])
      case SELECT => SelectCodec.Stored(old_, c.details.nfds, c.details.sets)
      case FCNTL => CallCodecs.StoredFcntl(old_, c.details.cmd, c.details.arg)
      case _ => Overlay(old_, c.payload);
    ReqMsg(c.op, c.bufSz, c.port, data)
  }

  /** What a call returns to its caller: the result, errno if it was stored, the bytes copied
      to the caller's buffer, and the reply block that the hook goes on to decode. */
  datatype Outcome = Outcome(value: int, errno: Option<int>, copied: seq<byte>, block: seq<byte>)

  /** `set_req_sock` after the reply has arrived. */
  function ClientResult(c: Call, rtn: RtnMsg): Outcome {
    if c.op == READ && !c.hasBuf then
      Outcome(-1, None, [], rtn.data)
    else if rtn.value < 0 then
      var value := if c.op in {READ, WRITE, EPOLL_CREATE1, EPOLL_CTL, EPOLL_WAIT, POLL}
                   then ToInt32(rtn.value) else -1;
      Outcome(value, Some(rtn.errno), [], rtn.data)
    else
      var n := ToInt32(rtn.value);
      var copied := if c.op == READ && n > 0 then rtn.data[..Min(n, |rtn.data|)] else [];
      Outcome(n, None, copied, rtn.data)
  }

  // ---------------------------------------------------------------- the server side

  /** What a handler finds around it and did not put there: the address of the memory that it gets for
      an `int` argument, the register of an argument that it does not pass, and the stack under its
      three descriptor sets. */
  datatype Env = Env(address: int, register: int, read: seq<byte>, write: seq<byte>, except: seq<byte>)

  /** The system call a handler makes for the request in its buffer. */
  function ServerSys(req: ReqMsg, sockfd: int, e: Env): (sys: Sys)
    requires |req.data| == BUFFER_SIZE
    ensures sys.op == req.op
  {
    match req.op
    case SOCKET => Sys(req.op, 0, 0, 0, [], NoDetails)
    case CLOSE | LISTEN => Sys(req.op, sockfd, 0, 0, [], NoDetails)
    case BIND | ACCEPT | CONNECT => Sys(req.op, sockfd, 0, req.port, [], NoDetails)
    case READ => Sys(READ, sockfd, ToInt32(req.bufSz), 0, [], NoDetails)
    case WRITE =>
      var n := ToInt32(req.bufSz);
      Sys(WRITE, sockfd, n, 0, if n >= 0 then req.data[..Min(n, |req.data|)] else [], NoDetails)
    case SELECT => Sys(SELECT, 0, 0, 0, [], HandlerSelect(req.data, e))
    case EPOLL_CREATE1 | EPOLL_CTL | EPOLL_WAIT | POLL =>
      Sys(req.op, 0, 0, 0, Block(req.op, req.data), NoDetails)
    case FCNTL => Sys(FCNTL, sockfd, 0, 0, [], HandlerFcntl(req.data, e))
    case SETSOCKOPT | GETSOCKOPT | GETPEERNAME | GETSOCKNAME =>
      Sys(req.op, sockfd, 0, 0, Block(req.op, req.data), NoDetails)
  }

  /** `sock_select` always passes three sets and a timeout: what the decoder did not fill is the stack
      as it was, or a timeout of zero. */
  function HandlerSelect(data: seq<byte>, e: Env): SysDetails
    requires |data| == BUFFER_SIZE
  {
    var (nfds, got) := SelectCodec.DecodeSelect(data, SelectCodec.Wants(true, true, true, true));
    SelectCall(nfds, SelectCodec.Args(
      Some(if got.read.Some? then got.read.value else e.read),
      Some(if got.write.Some? then got.write.value else e.write),
      Some(if got.except.Some? then got.except.value else e.except),
      Some(if got.timeout.Some? then got.timeout.value else Zeros(SelectCodec.TIMEVAL))))
  }

  /** `sock_fcntl` passes the address of the decoded argument, also where the kernel expects the
      number itself, and nothing when the flag is 0. */
  function HandlerFcntl(data: seq<byte>, e: Env): SysDetails
    requires |data| == BUFFER_SIZE
  {
    var (cmd, flag, arg) := CallCodecs.DecodeFcntl(data);
    FcntlCall(cmd, HandlerThird(cmd, flag, arg, e))
  }

  function HandlerThird(cmd: int, flag: int, arg: Option<seq<byte>>, e: Env): Third {
    if flag == 0 then (if Argumentless(cmd) then Nothing else Number(ToInt32(e.register)))
    else if flag == 1 then Number(ToInt32(e.address))
    else if flag == 2 then Lock(arg)
    else Number(0)
  }

  function DirectThird(cmd: int, arg: Option<seq<byte>>): Third
    requires IsArg(cmd, arg)
  {
    if Argumentless(cmd) then Nothing
    else if CallCodecs.ArgSize(cmd) == CallCodecs.FLOCK then Lock(arg)
    else Number(GetInt(arg.value))
  }

  predicate Argumentless(cmd: int) {
    cmd == CallCodecs.F_GETFD || cmd == CallCodecs.F_GETFL
  }

  /** The same call made directly, without the protocol. */
  function DirectSys(c: Call): (sys: Sys)
    requires WellFormed(c)
    ensures sys.op == c.op
  {
    match c.op
    case SOCKET => Sys(c.op, 0, 0, 0, [], NoDetails)
    case CLOSE | LISTEN => Sys(c.op, c.fd, 0, 0, [], NoDetails)
    case BIND | ACCEPT | CONNECT => Sys(c.op, c.fd, 0, c.port, [], NoDetails)
    case READ => Sys(READ, c.fd, c.bufSz, 0, [], NoDetails)
    case WRITE => Sys(WRITE, c.fd, c.bufSz, 0, c.payload, NoDetails)
    case SELECT => Sys(SELECT, 0, 0, 0, [], SelectCall(c.details.nfds, c.details.sets))
    case EPOLL_CREATE1 | EPOLL_CTL | EPOLL_WAIT | POLL => Sys(c.op, 0, 0, 0, c.payload, NoDetails)
    case FCNTL =>
      Sys(FCNTL, c.fd, 0, 0, [], FcntlCall(c.details.cmd, DirectThird(c.details.cmd, c.details.arg)))
    case SETSOCKOPT | GETSOCKOPT | GETPEERNAME | GETSOCKNAME =>
      Sys(c.op, c.fd, 0, 0, c.payload, NoDetails)
  }

  /** When a call within the bound arrives as it was made. A SELECT has to bring all three sets and a
      timeout, and a read set that begins as the flag does; an FCNTL has to be one without argument,
      or bring a lock, or be lucky with the address of its number, or with the register for a number
      that its command is not known to take. */
  predicate Delivered(c: Call, e: Env)
    requires WellFormed(c)
  {
    match c.op
    case SELECT =>
      var sets := c.details.sets;
      SelectCodec.Lead(sets) == 4 && sets.read.value[..3] == [4, 0, 0]
    case FCNTL => ThirdDelivered(c.details.cmd, c.details.arg, e)
    case _ => true
  }

  predicate ThirdDelivered(cmd: int, arg: Option<seq<byte>>, e: Env)
    requires IsArg(cmd, arg)
  {
    var n := CallCodecs.ArgSize(cmd);
    Argumentless(cmd) || (if n == CallCodecs.FLOCK then arg.Some?
                          else GetInt(arg.value) == ToInt32(if n == 4 then e.address else e.register))
  }

  /** What the kernel is given for a SELECT: the leading arguments that are there, the read set with the
      flag in it; for the others the stack of the handler, and a timeout of zero instead of waiting. */
  lemma SelectArrives(old_: seq<byte>, c: Call, e: Env)
    requires |old_| == BUFFER_SIZE && WellFormed(c) && c.op == SELECT
    ensures var sets := c.details.sets;
            var n := SelectCodec.Lead(sets);
            HandlerSelect(Fill(old_, c).data, e) == SelectCall(c.details.nfds, SelectCodec.Args(
              Some(if n >= 1 then SelectCodec.ReadImage(sets) else e.read),
              Some(if n >= 2 then sets.write.value else e.write),
              Some(if n >= 3 then sets.except.value else e.except),
              Some(if n >= 4 then sets.timeout.value else Zeros(SelectCodec.TIMEVAL))))
  {
    var m, nfds, sets := Fill(old_, c).data, c.details.nfds, c.details.sets;
    SelectCodec.StoredSelect(old_, nfds, sets);
    SelectCodec.SelectMeaning(m, nfds, sets, SelectCodec.Wants(true, true, true, true));
  }

  lemma SelectDelivered(old_: seq<byte>, c: Call, e: Env)
    requires |old_| == BUFFER_SIZE && WellFormed(c) && c.op == SELECT
    ensures HandlerSelect(Fill(old_, c).data, e) == DirectSys(c).details <==> Delivered(c, e)
  {
    SelectArrives(old_, c, e);
    var sets := c.details.sets;
    if SelectCodec.Lead(sets) == 4 {
      var r := sets.read.value;
      assert SelectCodec.ReadImage(sets) == [4, 0, 0] + r[3..];
      assert r == r[..3] + r[3..];
      assert ([4, 0, 0] + r[3..])[..3] == [4, 0, 0];
    }
  }

  /** For a number the kernel is given an address, or a register for a command not known to take one;
      for a lock that lock, and for NULL whatever the request buffer held. */
  lemma FcntlArrives(old_: seq<byte>, c: Call, e: Env)
    requires |old_| == BUFFER_SIZE && WellFormed(c) && c.op == FCNTL
    ensures var cmd, arg := c.details.cmd, c.details.arg;
            HandlerFcntl(Fill(old_, c).data, e) == FcntlCall(cmd,
              if cmd in {1, 3} then Nothing
              else if cmd in {0, 2, 4} then Number(ToInt32(e.address))
              else if cmd in {5, 6, 7} then Lock(if arg.Some? then arg else Some(Field(old_, 8, 32)))
              else Number(ToInt32(e.register)))
    ensures var cmd, arg := c.details.cmd, c.details.arg;
            DirectSys(c).details == FcntlCall(cmd,
              if cmd in {1, 3} then Nothing
              else if cmd in {5, 6, 7} then Lock(arg)
              else Number(GetInt(if arg.Some? then arg.value else [])))
  {
    var m, cmd, arg := Fill(old_, c).data, c.details.cmd, c.details.arg;
    var n := CallCodecs.ArgSize(cmd);
    CallCodecs.StoredFcntlHolds(old_, cmd, arg);
    CallCodecs.FcntlRoundTrip(m, old_, cmd, arg);
    hide CallCodecs.StoredFcntl, CallCodecs.DecodeFcntl, Field, PutInt, ToInt32;
    if n == CallCodecs.FLOCK && arg.Some? {
      assert arg.value[..n] == arg.value;
    }
  }

  lemma FcntlDelivered(old_: seq<byte>, c: Call, e: Env)
    requires |old_| == BUFFER_SIZE && WellFormed(c) && c.op == FCNTL
    ensures HandlerFcntl(Fill(old_, c).data, e) == DirectSys(c).details <==> Delivered(c, e)
  {
    FcntlArrives(old_, c, e);
    hide GetInt, ToInt32, Field, HandlerFcntl;
  }

  /** The argument blocks of the other calls have the lengths of their encoders, and arrive. */
  lemma BlocksArrive(old_: seq<byte>, c: Call, e: Env)
    requires |old_| == BUFFER_SIZE && WellFormed(c)
    requires c.op in {EPOLL_CREATE1, EPOLL_CTL, EPOLL_WAIT, POLL, SETSOCKOPT, GETSOCKOPT, GETPEERNAME, GETSOCKNAME}
    ensures ServerSys(Fill(old_, c), c.fd, e).data == c.payload
    ensures c.op == EPOLL_CREATE1 ==> |c.payload| == 4
    ensures c.op == EPOLL_CTL ==> |c.payload| == 24
    ensures c.op == EPOLL_WAIT ==> |c.payload| == 16
    ensures c.op in {GETPEERNAME, GETSOCKNAME} ==> |c.payload| == 20
    ensures c.op == POLL ==> |c.payload| >= 12 && |c.payload| == 12 + 8 * Get(c.payload[4..12])
    ensures c.op in {SETSOCKOPT, GETSOCKOPT} ==> |c.payload| >= 12 && |c.payload| == 12 + Get(c.payload[8..12])
  {
    BlockOfPayload(c.op, c.payload, old_[|c.payload|..]);
  }

  /** A direct call loses nothing that the kernel could use: equal system calls come from calls with the
      same operation and the same arguments of that operation. */
  lemma DirectCallsDiffer(c: Call, d: Call)
    requires WellFormed(c) && WellFormed(d) && DirectSys(c) == DirectSys(d)
    ensures c.op == d.op
    ensures c.op in {CLOSE, LISTEN, BIND, ACCEPT, CONNECT, READ, WRITE, FCNTL, SETSOCKOPT, GETSOCKOPT, GETPEERNAME, GETSOCKNAME} ==>
              c.fd == d.fd
    ensures c.op in {BIND, ACCEPT, CONNECT} ==> c.port == d.port
    ensures c.op in {READ, WRITE} ==> c.bufSz == d.bufSz
    ensures c.op !in {SOCKET, CLOSE, LISTEN, BIND, ACCEPT, CONNECT, READ, SELECT, FCNTL} ==> c.payload == d.payload
    ensures c.op == SELECT ==> c.details == d.details
    ensures c.op == FCNTL ==> c.details.cmd == d.details.cmd
    ensures c.op == FCNTL && c.details.cmd in {5, 6, 7} ==> c.details.arg == d.details.arg
    ensures c.op == FCNTL && c.details.cmd !in {1, 3, 5, 6, 7} ==>
              c.details.arg.Some? && d.details.arg.Some? && c.details.arg.value == d.details.arg.value
  {
    if c.op == FCNTL && c.details.cmd !in {1, 3, 5, 6, 7} {
      SameNumber(c.details.arg.value, d.details.arg.value);
    }
  }

  lemma SameNumber(a: seq<byte>, b: seq<byte>)
    requires |a| == |b| == 4 && GetInt(a) == GetInt(b)
    ensures a == b
  {
    Pow256Values();
    assert Get(a) == Get(b);
    PutGet(a);
    PutGet(b);
  }

  /** Whatever the request buffer held before, a call within the bound reaches the kernel with exactly
      the arguments of the direct call if and only if it is delivered: always, but for SELECT and
      FCNTL. */
  lemma RequestReachesKernel(old_: seq<byte>, c: Call, e: Env)
    requires |old_| == BUFFER_SIZE && WellFormed(c) && InBound(c)
    ensures ServerSys(Fill(old_, c), c.fd, e) == DirectSys(c) <==> Delivered(c, e)
  {
    if c.op == SELECT {
      SelectDelivered(old_, c, e);
    } else if c.op == FCNTL {
      FcntlDelivered(old_, c, e);
    } else if c.op != WRITE {
      BlockOfPayload(c.op, c.payload, old_[|c.payload|..]);
    }
  }

  /** For a WRITE of any length that fits the buffer, the kernel is given the caller's bytes
      exactly when the length is within the bound or the stale bytes left in the buffer happen
      to be the ones that were not copied. */
  lemma WriteReachesKernelIff(old_: seq<byte>, c: Call, e: Env)
    requires |old_| == BUFFER_SIZE && WellFormed(c) && c.op == WRITE && c.bufSz <= BUFFER_SIZE
    ensures ServerSys(Fill(old_, c), c.fd, e) == DirectSys(c) <==>
            InBound(c) || old_[BUFFER_SIZE - 24..c.bufSz] == c.payload[BUFFER_SIZE - 24..]
  {
    if InBound(c) {
      RequestReachesKernel(old_, c, e);
    } else {
      var n := BUFFER_SIZE - 24;
      var sent := ServerSys(Fill(old_, c), c.fd, e).data;
      OverlayPrefix(old_, c.payload[..n], c.bufSz);
      assert sent == c.payload[..n] + old_[n..c.bufSz];
      assert c.payload == c.payload[..n] + c.payload[n..];
      assert sent[n..] == old_[n..c.bufSz];
    }
  }

  lemma OverlayPrefix(buf: seq<byte>, bytes: seq<byte>, n: nat)
    requires |bytes| <= n <= |buf|
    ensures Overlay(buf, bytes)[..n] == bytes + buf[|bytes|..n]
  {
  }

  /** Handlers store the kernel's errno on failure; READ also stores it at end of file, and
      SOCKET treats descriptor 0 as a failure. */
  predicate StoresErrno(op: Op, value: int) {
    value < 0 || (value == 0 && op in {READ, SOCKET})
  }

  /** The reply after the handler of `op` has run on top of the reply left by the previous call. */
  function Reply(op: Op, rtn: RtnMsg, a: Answer): (r: RtnMsg)
    ensures |r.data| == |rtn.data|
  {
    RtnMsg(
      if StoresErrno(op, a.value) then a.errno else if op == READ then 0 else rtn.errno,
      if IsSockopt(op) then rtn.value else a.value,
      if WritesPayload(op, a.value) then Overlay(rtn.data, a.payload) else rtn.data)
  }

  /** Which handlers send output, and that the others leave the data of the reply alone. */
  lemma OutputIsSent(op: Op, rtn: RtnMsg, a: Answer)
    requires WellSized(rtn) && |a.payload| <= BUFFER_SIZE
    ensures var sent := (op in {EPOLL_WAIT, POLL, GETSOCKOPT, GETPEERNAME, GETSOCKNAME} && a.value >= 0)
                        || (op in {SELECT, READ} && a.value > 0);
            if sent then a.payload <= Reply(op, rtn, a).data && Reply(op, rtn, a).data[|a.payload|..] == rtn.data[|a.payload|..]
            else Reply(op, rtn, a).data == rtn.data
  {
  }

  /** The clears that follow a posted reply. Every reply clears `errno_`; a READ that returned
      bytes clears eight bytes of `rtn.data`; SELECT clears all of it; WRITE clears
      `sizeof(struct req_msg)` bytes from `req.data` on, which is all of `req.data` and the
      first fourteen bytes of the reply struct stored behind it. */
  function ClearRtn(op: Op, rtn: RtnMsg): (r: RtnMsg)
    requires WellSized(rtn)
    ensures WellSized(r) && r.errno == 0
    ensures r.value == if op == WRITE then 0 else rtn.value
  {
    match op
    case READ => RtnMsg(0, rtn.value, if rtn.value > 0 then Overlay(rtn.data, Zeros(8)) else rtn.data)
    case SELECT => RtnMsg(0, rtn.value, Zeros(BUFFER_SIZE))
    case WRITE => RtnMsg(0, 0, Overlay(rtn.data, Zeros(2)))
    case _ => rtn.(errno := 0)
  }

  function ClearReq(req: ReqMsg): (r: ReqMsg)
    requires |req.data| == BUFFER_SIZE
    ensures |r.data| == BUFFER_SIZE
  {
    if req.op == WRITE then req.(data := Zeros(BUFFER_SIZE)) else req
  }

  /** What the clears do, byte by byte: the memset behind a WRITE empties the request and reaches the
      error number, the result and two data bytes of the reply; the one behind a READ takes eight bytes,
      the one behind a SELECT the whole reply; and every reply forgets its error number. */
  lemma ClearsAre(req: ReqMsg, rtn: RtnMsg, i: nat)
    requires |req.data| == BUFFER_SIZE && WellSized(rtn) && i < 600000
    ensures var r := ClearRtn(req.op, rtn);
            && r.errno == 0 && r.value == (if req.op == WRITE then 0 else rtn.value)
            && r.data[i] == if (req.op == WRITE && i < 2) || (req.op == READ && rtn.value > 0 && i < 8) || req.op == SELECT
                            then 0 else rtn.data[i]
    ensures ClearReq(req).data[i] == if req.op == WRITE then 0 else req.data[i]
  {
  }
}
